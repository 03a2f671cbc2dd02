/**
 * The output half of `writeV` (2Dcells.c:95-111): each channel reads the voltage
 * of its sampled grid cell, maps it for the selected mode and writes it through
 * the reference-pin table. The device call itself and the console log are not
 * modelled; the writes are returned instead.
 */
module Output {
  import opened Wrappers
  import opened Pins
  import opened OutputMap
  import opened Index
  import opened SampleMap

  /** The writes of one `writeV` call for sample map `cells`: reference pin `c`, which
      is board `c / 16`, pin `c % 16`, receives the voltage of grid cell `cells[c]`
      mapped for `mode`; mode numbers other than 1 and 2 write nothing. */
  function ChannelWrites(v: seq<real>, cells: seq<int>, mode: int, range: nat): (w: seq<DeviceWrite>)
    requires forall c :: 0 <= c < |cells| ==> 0 <= cells[c] < |v|
    ensures ModeOf(mode).None? ==> w == []
    ensures ModeOf(mode).Some? ==> |w| == |cells|
    ensures forall c :: 0 <= c < |w| ==> 0 <= w[c].value <= range
  {
    match ModeOf(mode)
    case None => []
    case Some(m) =>
      seq(|cells|, c requires 0 <= c < |cells| =>
        DeviceWrite(c / PinsPerBoard, c % PinsPerBoard, MapFor(m, v[cells[c]], range)))
  }

  /** Channel `c` of the sample map `cells` is written to reference pin `c`, with the
      voltage of grid cell `cells[c]` mapped for `mode`. Mode numbers other than 1
      and 2 write nothing, as the `switch` has no other case. */
  method EmitChannels(pins: seq<seq<int>>, v: seq<real>, cells: seq<int>, mode: int, range: nat)
    returns (writes: seq<DeviceWrite>)
    requires IsReferenceTable(pins)
    requires |cells| <= NumRefPins
    requires forall c :: 0 <= c < |cells| ==> 0 <= cells[c] < |v|
    ensures ModeOf(mode).None? ==> writes == []
    ensures ModeOf(mode).Some? ==> |writes| == |cells|
    ensures ModeOf(mode).Some? ==>
              forall c :: 0 <= c < |cells| ==>
                writes[c] == DeviceWrite(c / PinsPerBoard, c % PinsPerBoard, MapFor(ModeOf(mode).value, v[cells[c]], range))
    ensures forall c :: 0 <= c < |writes| ==> 0 <= writes[c].value <= range
    ensures writes == ChannelWrites(v, cells, mode, range)
  {
    writes := [];
    var m := ModeOf(mode);
    if m.None? {
      return;
    }
    var i := 0;
    while i < |cells|
      invariant 0 <= i <= |cells| && |writes| == i
      invariant forall c :: 0 <= c < i ==>
                  writes[c] == DeviceWrite(c / PinsPerBoard, c % PinsPerBoard, MapFor(m.value, v[cells[c]], range))
    {
      var n := cells[i];
      var w := PwmWrite(pins, i, MapFor(m.value, v[n], range));
      writes := writes + [w.value];
      i := i + 1;
    }
  }

  /** `writeV` (2Dcells.c:80-113) with the channel-count check of 2Dcells.c:136-140
      as intended and the remaining conditions the C code leaves to chance checked
      first: at most 64 channels, so every channel has a reference pin, and every
      sampled index inside `v`. */
  method WriteV(pins: seq<seq<int>>, xnum: nat, ynum: nat, v: seq<real>, numPins: int, mode: int, range: nat)
    returns (r: Result<seq<DeviceWrite>, ConfigError>)
    requires IsReferenceTable(pins)
    ensures r == Err(NotPerfectSquare(numPins)) <==> !(1 <= numPins && IsPerfectSquare(numPins))
    ensures r.Err? && numPins <= NumRefPins && r.error != NotPerfectSquare(numPins) ==> r.error == SampleOutsideGrid
    ensures (1 <= numPins <= NumRefPins && IsPerfectSquare(numPins) && |v| == xnum * ynum &&
             forall s :: 1 <= s && Square(s) == numPins ==> SampleFits(s, xnum / s, xnum, ynum)) ==> r.Ok?
    ensures r.Ok? && ModeOf(mode).Some? ==> |r.value| == numPins
    ensures r.Ok? ==> forall c :: 0 <= c < |r.value| ==>
              0 <= r.value[c].value <= range && r.value[c].board == c / PinsPerBoard && r.value[c].pin == c % PinsPerBoard
    ensures r == Err(TooManyChannels(numPins)) <==> 1 <= numPins && IsPerfectSquare(numPins) && NumRefPins < numPins
    ensures r == Err(SampleOutsideGrid) ==>
              1 <= numPins <= NumRefPins &&
              forall s :: 1 <= s && Square(s) == numPins ==>
                exists c :: 0 <= c < numPins && !(0 <= SampleCells(s, xnum / s, ynum)[c] < |v|)
    ensures r.Ok? ==> forall s :: 1 <= s && Square(s) == numPins ==>
              var cells := SampleCells(s, xnum / s, ynum);
              && (forall c :: 0 <= c < |cells| ==> 0 <= cells[c] < |v|)
              && r.value == ChannelWrites(v, cells, mode, range)
  {
    var checked := ValidateChannelCount(numPins);
    if checked.Err? {
      return Err(checked.error);
    }
    if numPins > NumRefPins {
      return Err(TooManyChannels(numPins));
    }
    var sr, factor, cells := BuildSampleMap(xnum, ynum, numPins);
    SquareMonotone(sr, sr + 1);
    forall s | 1 <= s && Square(s) == numPins
      ensures s == sr
    {
      RootOfSquare(sr, s);
    }
    if !(forall c :: 0 <= c < |cells| ==> 0 <= cells[c] < |v|) {
      if |v| == xnum * ynum && SampleFits(sr, factor, xnum, ynum) {
        SampleMapInGrid(cells, sr, factor, xnum, ynum);
      }
      return Err(SampleOutsideGrid);
    }
    var writes := EmitChannels(pins, v, cells, mode, range);
    r := Ok(writes);
  }
}
