/** The list of places on the device that a certificate definition needs (atcacert_def.c). */
module DeviceLocs {
  import opened Arithmetic
  import opened Status

  type uint16 = x: int | 0 <= x < 0x1_0000

  datatype Zone = Config | Otp | Data | NoZone

  datatype DeviceLoc = DeviceLoc(zone: Zone, slot: nat, isGenkey: nat, offset: uint16, count: uint16)

  function U16(n: int): uint16 {
    n % 0x1_0000
  }

  function End(l: DeviceLoc): nat {
    l.offset + l.count
  }

  predicate Present(l: DeviceLoc) {
    l.zone != NoZone && l.count != 0
  }

  /** Both are read from the device in the same way. */
  predicate SameSource(a: DeviceLoc, b: DeviceLoc) {
    a.zone == b.zone && (a.zone == Data ==> a.slot == b.slot && a.isGenkey == b.isGenkey)
  }

  // ----- Merging -----

  function RoundDown(n: nat, block: nat): (r: nat)
    requires block > 0
  {
    n / block * block
  }

  function RoundUp(n: nat, block: nat): (r: nat)
    requires block > 0
  {
    (if n % block != 0 then n / block + 1 else n / block) * block
  }

  /** The rounded location touches an entry that is read in the same way. */
  predicate Mergeable(l: DeviceLoc, cur: DeviceLoc, lo: nat, hi: nat) {
    SameSource(l, cur) && !(hi < cur.offset || lo > End(cur))
  }

  /** The first entry from i on that the location can join, or the end of the list. */
  function FirstMergeable(locs: seq<DeviceLoc>, l: DeviceLoc, lo: nat, hi: nat, i: nat): (r: nat)
    requires i <= |locs|
    ensures i <= r <= |locs| && (r < |locs| ==> Mergeable(l, locs[r], lo, hi))
    decreases |locs| - i
  {
    if i == |locs| || Mergeable(l, locs[i], lo, hi) then i else FirstMergeable(locs, l, lo, hi, i + 1)
  }

  /** An entry grown to hold a location, whose start is not rounded. */
  function Grown(cur: DeviceLoc, l: DeviceLoc, hi: nat): DeviceLoc {
    var offset := if l.offset < cur.offset then l.offset else cur.offset;
    cur.(offset := offset, count := U16((if hi > End(cur) then hi else End(cur)) - offset))
  }

  datatype Outcome = Outcome(status: Status, locs: seq<DeviceLoc>)

  /** atcacert_merge_device_loc */
  function Merge(locs: seq<DeviceLoc>, max: nat, l: DeviceLoc, block: nat): (r: Outcome) {
    if block == 0 then Outcome(BadParams, locs)
    else if !Present(l) then Outcome(Success, locs)
    else
      var lo, hi := RoundDown(l.offset, block), RoundUp(End(l), block);
      var i := FirstMergeable(locs, l, lo, hi, 0);
      if i < |locs| then Outcome(Success, locs[i := Grown(locs[i], l, hi)])
      else if |locs| >= max then Outcome(BufferTooSmall, locs)
      else Outcome(Success, locs + [l.(offset := U16(lo), count := U16(hi - lo))])
  }

  /** Merging one location after another, up to the first that fails. */
  function MergeAll(locs: seq<DeviceLoc>, max: nat, wanted: seq<DeviceLoc>, block: nat): (r: Outcome)
    decreases |wanted|
  {
    if wanted == [] then Outcome(Success, locs)
    else
      var r := Merge(locs, max, wanted[0], block);
      if r.status != Success then r else MergeAll(r.locs, max, wanted[1..], block)
  }

  /** The places that a definition names. */
  datatype Places = Places(compCert: DeviceLoc, certSn: DeviceLoc, publicKey: DeviceLoc,
                           elements: seq<DeviceLoc>, snSource: nat)

  /** Octets 0 to 3 and 8 to 12 of the configuration zone, and those between. */
  const DEVICE_SN := DeviceLoc(Config, 0, 0, 0, 13)

  predicate NeedsDeviceSn(snSource: nat) {
    snSource == 8 || snSource == 0xB || snSource == 0xD || snSource == 0xF
  }

  function Needed(p: Places): seq<DeviceLoc> {
    [p.compCert, p.certSn, p.publicKey] + p.elements + if NeedsDeviceSn(p.snSource) then [DEVICE_SN] else []
  }

  /** The compressed certificate, the serial number, the public key and every element are needed, and the serial
      number of the device exactly for the sources that are computed from it. */
  lemma NeededExactly(p: Places, l: DeviceLoc)
    ensures l in Needed(p)
            <==> || l == p.compCert || l == p.certSn || l == p.publicKey || l in p.elements
                 || (p.snSource in [0x8, 0xB, 0xD, 0xF] && l == DeviceLoc(Config, 0, 0, 0, 13))
  {}

  // ----- Matching -----

  /** atcacert_is_device_loc_match: where in the data of `src` that of `dest` starts, if it is all there. */
  function Match(dest: DeviceLoc, src: DeviceLoc): (r: Result<nat>) {
    if !Present(dest) || !Present(src) || !SameSource(dest, src) then Err(Error)
    else if dest.offset < src.offset || End(dest) > End(src) then Err(Error)
    else Ok(dest.offset - src.offset)
  }

  predicate Covered(locs: seq<DeviceLoc>, l: DeviceLoc) {
    exists i :: 0 <= i < |locs| && Match(l, locs[i]).Ok?
  }

  /** The entry's end fits 16 bits. */
  predicate Fits(l: DeviceLoc) {
    End(l) < 0x1_0000
  }

  // ----- Laws -----

  /** Where a device keeps octets: every slot of the data zone has its own, and a key that is generated from a slot
      is not what is stored there. */
  datatype Store = ConfigStore | OtpStore | SlotStore(slot: nat, isGenkey: nat)

  function StoreOf(l: DeviceLoc): Store
    requires l.zone != NoZone
  {
    match l.zone
    case Config => ConfigStore
    case Otp => OtpStore
    case _ => SlotStore(l.slot, l.isGenkey)
  }

  /** The octets copied for a match are those of the location asked for, in its own zone, slot and way of reading,
      when the data of the entry were read from its place. */
  lemma MatchCopies(dest: DeviceLoc, src: DeviceLoc, device: Store -> seq<int>)
    requires Match(dest, src).Ok? && End(src) <= |device(StoreOf(src))|
    ensures dest.zone != NoZone && End(dest) <= |device(StoreOf(dest))|
    ensures var data, from := device(StoreOf(src))[src.offset..End(src)], Match(dest, src).value;
            && from + dest.count <= |data|
            && data[from..from + dest.count] == device(StoreOf(dest))[dest.offset..End(dest)]
  {
    var from := Match(dest, src).value;
    SliceOfSlice(device(StoreOf(src)), src.offset, End(src), from, from + dest.count);
  }

  /** A place is in an entry of the same zone, and in the data zone of the same slot and way of reading, and in no
      other. */
  lemma MatchExactly(dest: DeviceLoc, src: DeviceLoc)
    ensures Match(dest, src).Ok?
            <==> && dest.zone == src.zone != NoZone && dest.count > 0 && src.count > 0
                 && (dest.zone == Data ==> dest.slot == src.slot && dest.isGenkey == src.isGenkey)
                 && src.offset <= dest.offset && dest.offset + dest.count <= src.offset + src.count
  {}

  /** A merge leaves the zone, slot and way of reading of every entry, and gives a new entry those of the location. */
  lemma MergeKeepsStores(locs: seq<DeviceLoc>, max: nat, l: DeviceLoc, block: nat)
    ensures var r := Merge(locs, max, l, block).locs;
            && |locs| <= |r| <= |locs| + 1
            && (forall i :: 0 <= i < |locs| ==>
                  r[i].zone == locs[i].zone && r[i].slot == locs[i].slot && r[i].isGenkey == locs[i].isGenkey)
            && (|r| > |locs| ==>
                  r[|locs|].zone == l.zone && r[|locs|].slot == l.slot && r[|locs|].isGenkey == l.isGenkey)
  {}

  /** Different slots of the data zone are not merged, and neither holds the other. */
  lemma SlotsStayApart(a: DeviceLoc, b: DeviceLoc, block: nat)
    requires a.zone == b.zone == Data && a.slot != b.slot && Present(a) && Present(b) && block > 0
    ensures |Merge([a], 2, b, block).locs| == 2 && Merge([a], 2, b, block).locs[0] == a
    ensures Match(a, b) == Match(b, a) == Err(Error)
  {}

  lemma SliceOfSlice(s: seq<int>, a: nat, b: nat, c: nat, d: nat)
    requires a <= b <= |s| && c <= d <= b - a
    ensures s[a..b][c..d] == s[a + c..a + d]
  {
    var t := s[a..b];
    assert forall k :: 0 <= k < d - c ==> t[c..d][k] == t[c + k] && t[c + k] == s[a + c..a + d][k];
  }

  lemma Rounding(n: nat, block: nat)
    requires block > 0
    ensures RoundDown(n, block) <= n < RoundDown(n, block) + block
    ensures RoundUp(n, block) - block < n <= RoundUp(n, block)
  {
    var q := n / block;
    assert n == block * q + n % block;
    assert (q + 1) * block == q * block + block;
  }

  /** There is only one such multiple of the block below a number, and one above. */
  lemma RoundingIs(n: nat, block: nat, lo: nat, hi: nat)
    requires block > 0 && lo % block == hi % block == 0
    ensures lo <= n < lo + block ==> RoundDown(n, block) == lo
    ensures n <= hi < n + block ==> RoundUp(n, block) == hi
  {
    if lo <= n < lo + block {
      Quotient(n, block, lo / block, n - lo);
      Commute(lo / block, block);
    }
    if n <= hi < n + block { Above(n, block, hi / block, hi); }
  }

  lemma Above(n: nat, block: nat, q: nat, hi: nat)
    requires block > 0 && hi == block * q && n <= hi < n + block
    ensures RoundUp(n, block) == hi
  {
    Commute(q, block);
    if n == hi {
      Quotient(n, block, q, 0);
    } else {
      Commute(q - 1, block);
      Quotient(n, block, q - 1, n - (hi - block));
    }
  }

  lemma Commute(q: int, block: nat)
    ensures q * block == block * q == (q + 1) * block - block
  {}

  /**
   What a merge makes of the list: the first entry of the same zone, slot and way of reading that the location,
   rounded outwards to whole blocks, overlaps or touches, grows to hold the location from its unrounded start to its
   rounded end, and when there is none the rounded location is added, if there is room.
   */
  lemma MergeIs(locs: seq<DeviceLoc>, max: nat, l: DeviceLoc, block: nat, lo: nat, hi: nat, i: nat)
    requires l.zone != NoZone && l.count > 0 && block > 0 && lo % block == hi % block == 0 && i <= |locs|
    requires lo <= l.offset < lo + block && l.offset + l.count <= hi < l.offset + l.count + block
    requires forall j :: 0 <= j <= i && j < |locs| ==>
               var cur := locs[j];
               (j == i <==> && cur.zone == l.zone && lo <= cur.offset + cur.count && cur.offset <= hi
                            && (cur.zone == Data ==> cur.slot == l.slot && cur.isGenkey == l.isGenkey))
    ensures Merge(locs, max, l, block)
            == if i < |locs| then
                 var cur := locs[i];
                 var start := if l.offset < cur.offset then l.offset else cur.offset;
                 var end := if hi > cur.offset + cur.count then hi else cur.offset + cur.count;
                 Outcome(Success, locs[i := cur.(offset := start, count := (end - start) % 65536)])
               else if |locs| >= max then Outcome(BufferTooSmall, locs)
               else Outcome(Success, locs + [l.(offset := lo % 65536, count := (hi - lo) % 65536)])
  {
    hide RoundDown, RoundUp, FirstMergeable, Mergeable, Merge;
    RoundingIs(l.offset, block, lo, hi);
    RoundingIs(End(l), block, lo, hi);
    forall j | 0 <= j <= i && j < |locs| ensures Mergeable(l, locs[j], lo, hi) <==> j == i {
      MergeableIs(l, locs[j], lo, hi);
    }
    FirstIs(locs, l, lo, hi, 0, i);
    MergedAt(locs, max, l, block, lo, hi, i);
  }

  lemma MergedAt(locs: seq<DeviceLoc>, max: nat, l: DeviceLoc, block: nat, lo: nat, hi: nat, i: nat)
    requires Present(l) && block > 0 && lo == RoundDown(l.offset, block) && hi == RoundUp(End(l), block)
    requires i == FirstMergeable(locs, l, lo, hi, 0)
    ensures Merge(locs, max, l, block)
            == if i < |locs| then
                 var cur := locs[i];
                 var start := if l.offset < cur.offset then l.offset else cur.offset;
                 var end := if hi > cur.offset + cur.count then hi else cur.offset + cur.count;
                 Outcome(Success, locs[i := cur.(offset := start, count := (end - start) % 65536)])
               else if |locs| >= max then Outcome(BufferTooSmall, locs)
               else Outcome(Success, locs + [l.(offset := lo % 65536, count := (hi - lo) % 65536)])
  {
    hide RoundDown, RoundUp, FirstMergeable, Mergeable;
  }

  lemma MergeableIs(l: DeviceLoc, cur: DeviceLoc, lo: nat, hi: nat)
    ensures Mergeable(l, cur, lo, hi)
            <==> && cur.zone == l.zone && lo <= cur.offset + cur.count && cur.offset <= hi
                 && (cur.zone == Data ==> cur.slot == l.slot && cur.isGenkey == l.isGenkey)
  {}

  lemma {:induction false} FirstIs(locs: seq<DeviceLoc>, l: DeviceLoc, lo: nat, hi: nat, from: nat, i: nat)
    requires from <= i <= |locs| && (i < |locs| ==> Mergeable(l, locs[i], lo, hi))
    requires forall j :: from <= j < i ==> !Mergeable(l, locs[j], lo, hi)
    ensures FirstMergeable(locs, l, lo, hi, from) == i
    decreases i - from
  {
    if from < i { FirstIs(locs, l, lo, hi, from + 1, i); }
  }

  /** The octets from the start to the end of the entry that a merge makes or changes. */
  function Span(locs: seq<DeviceLoc>, l: DeviceLoc, block: nat): int
    requires block > 0
  {
    var lo, hi := RoundDown(l.offset, block), RoundUp(End(l), block);
    var i := FirstMergeable(locs, l, lo, hi, 0);
    if i < |locs| then GrownSpan(locs[i], l, hi) else hi - lo
  }

  function GrownSpan(cur: DeviceLoc, l: DeviceLoc, hi: nat): int {
    (if hi > End(cur) then hi else End(cur)) - (if l.offset < cur.offset then l.offset else cur.offset)
  }

  lemma GrownHolds(cur: DeviceLoc, l: DeviceLoc, lo: nat, hi: nat, d: DeviceLoc)
    requires Present(l) && Mergeable(l, cur, lo, hi) && End(l) <= hi && GrownSpan(cur, l, hi) < 0x1_0000
    ensures Match(l, Grown(cur, l, hi)).Ok?
    ensures Match(d, cur).Ok? ==> Match(d, Grown(cur, l, hi)).Ok?
  {}

  lemma GrownFails(cur: DeviceLoc, l: DeviceLoc, hi: nat)
    requires Present(cur) && End(l) <= hi < End(l) + 0x1_0000 && GrownSpan(cur, l, hi) >= 0x1_0000
    ensures !(Match(l, Grown(cur, l, hi)).Ok? && Match(cur, Grown(cur, l, hi)).Ok?)
  {}

  /** A merge into an entry covers the location and what the entry was exactly when the span of both fits 16 bits. */
  lemma MergeExactly(locs: seq<DeviceLoc>, max: nat, l: DeviceLoc, block: nat)
    requires Present(l) && 0 < block <= 0x1_0000
    requires var i := FirstMergeable(locs, l, RoundDown(l.offset, block), RoundUp(End(l), block), 0);
             i < |locs| && Present(locs[i])
    ensures var i := FirstMergeable(locs, l, RoundDown(l.offset, block), RoundUp(End(l), block), 0);
            var r := Merge(locs, max, l, block);
            && r.status == Success && |r.locs| == |locs|
            && (forall k :: 0 <= k < |locs| && k != i ==> r.locs[k] == locs[k])
            && (Match(l, r.locs[i]).Ok? && Match(locs[i], r.locs[i]).Ok? <==> Span(locs, l, block) < 0x1_0000)
  {
    hide RoundDown, RoundUp, Match, Grown, GrownSpan, Mergeable;
    var lo, hi := RoundDown(l.offset, block), RoundUp(End(l), block);
    var i := FirstMergeable(locs, l, lo, hi, 0);
    Rounding(End(l), block);
    if GrownSpan(locs[i], l, hi) < 0x1_0000 {
      GrownHolds(locs[i], l, lo, hi, locs[i]);
      MatchesItself(locs[i]);
    } else {
      GrownFails(locs[i], l, hi);
    }
  }

  lemma MatchesItself(l: DeviceLoc)
    requires Present(l)
    ensures Match(l, l).Ok?
  {}

  /** Ten octets merged in blocks of 32 into an entry of 65535 uncover that entry. */
  lemma LongMergeUncovers()
    ensures var l, cur := DeviceLoc(Config, 0, 0, 0, 10), DeviceLoc(Config, 0, 0, 32, 65535);
            && Merge([cur], 1, l, 32) == Outcome(Success, [DeviceLoc(Config, 0, 0, 0, 31)])
            && !Covered(Merge([cur], 1, l, 32).locs, cur)
  {
    var l, cur := DeviceLoc(Config, 0, 0, 0, 10), DeviceLoc(Config, 0, 0, 32, 65535);
    assert RoundUp(End(l), 32) == 32 && RoundDown(l.offset, 32) == 0;
    assert Mergeable(l, cur, 0, 32);
  }

  lemma AppendedHolds(l: DeviceLoc, lo: nat, hi: nat)
    requires Present(l) && lo <= l.offset && End(l) <= hi && hi - lo < 0x1_0000
    ensures Match(l, l.(offset := U16(lo), count := U16(hi - lo))).Ok?
  {}

  /** A merge covers the new location and whatever was covered before, when its span fits 16 bits. */
  lemma MergeCovers(locs: seq<DeviceLoc>, max: nat, l: DeviceLoc, block: nat, d: DeviceLoc)
    requires Merge(locs, max, l, block).status == Success && block > 0
    requires Present(l) ==> Span(locs, l, block) < 0x1_0000
    ensures var r := Merge(locs, max, l, block).locs;
            && (Present(l) ==> Covered(r, l))
            && (Covered(locs, d) ==> Covered(r, d))
            && |r| <= if |locs| <= max then max else |locs|
  {
    hide RoundDown, RoundUp, Match, Grown, GrownSpan, Mergeable;
    var r := Merge(locs, max, l, block).locs;
    if Present(l) {
      var lo, hi := RoundDown(l.offset, block), RoundUp(End(l), block);
      Rounding(l.offset, block);
      Rounding(End(l), block);
      var i := FirstMergeable(locs, l, lo, hi, 0);
      if i < |locs| {
        GrownHolds(locs[i], l, lo, hi, d);
        assert Match(l, r[i]).Ok?;
      } else {
        AppendedHolds(l, lo, hi);
        assert Match(l, r[|locs|]).Ok?;
      }
      if Covered(locs, d) {
        var k :| 0 <= k < |locs| && Match(d, locs[k]).Ok?;
        assert Match(d, r[k]).Ok?;
      }
    }
  }

  /** The span of every merge on the way fits 16 bits. */
  predicate SpansFit(locs: seq<DeviceLoc>, max: nat, wanted: seq<DeviceLoc>, block: nat)
    requires block > 0
    decreases |wanted|
  {
    wanted == [] || (
      && (Present(wanted[0]) ==> Span(locs, wanted[0], block) < 0x1_0000)
      && SpansFit(Merge(locs, max, wanted[0], block).locs, max, wanted[1..], block))
  }

  /** Once the list of a definition's places is complete, each of them is covered, and so is whatever was before. */
  lemma {:induction false} AllCovered(locs: seq<DeviceLoc>, max: nat, wanted: seq<DeviceLoc>, block: nat, d: DeviceLoc)
    requires MergeAll(locs, max, wanted, block).status == Success && block > 0
    requires SpansFit(locs, max, wanted, block)
    ensures var r := MergeAll(locs, max, wanted, block).locs;
            && ((d in wanted && Present(d)) || Covered(locs, d) ==> Covered(r, d))
            && |r| <= if |locs| <= max then max else |locs|
    decreases |wanted|
  {
    if wanted != [] {
      MergeCovers(locs, max, wanted[0], block, d);
      AllCovered(Merge(locs, max, wanted[0], block).locs, max, wanted[1..], block, d);
      if d in wanted && d != wanted[0] { assert d in wanted[1..]; }
    }
  }

  /** All ends within 16 bits are enough. */
  lemma {:induction false} EndsFit(locs: seq<DeviceLoc>, max: nat, wanted: seq<DeviceLoc>, block: nat)
    requires block > 0 && forall i :: 0 <= i < |locs| ==> Fits(locs[i])
    requires forall i :: 0 <= i < |wanted| ==> RoundUp(End(wanted[i]), block) < 0x1_0000
    ensures SpansFit(locs, max, wanted, block)
    decreases |wanted|
  {
    if wanted != [] {
      MergeFits(locs, max, wanted[0], block);
      EndsFit(Merge(locs, max, wanted[0], block).locs, max, wanted[1..], block);
    }
  }

  lemma MergeFits(locs: seq<DeviceLoc>, max: nat, l: DeviceLoc, block: nat)
    requires block > 0 && (forall i :: 0 <= i < |locs| ==> Fits(locs[i])) && RoundUp(End(l), block) < 0x1_0000
    ensures Present(l) ==> Span(locs, l, block) < 0x1_0000
    ensures var r := Merge(locs, max, l, block).locs; forall i :: 0 <= i < |r| ==> Fits(r[i])
  {
    hide RoundDown, RoundUp, Mergeable;
    Rounding(l.offset, block);
    Rounding(End(l), block);
  }

  /** A location that gets an entry of its own is covered by it exactly when its rounded span fits 16 bits. */
  lemma AppendCovers(l: DeviceLoc, block: nat)
    requires Present(l) && 0 < block <= 0x1_0000
    ensures var r := Merge([], 1, l, block);
            && r.status == Success
            && (Covered(r.locs, l) <==> RoundUp(End(l), block) - RoundDown(l.offset, block) < 0x1_0000)
  {
    hide Merge, RoundDown, RoundUp;
    var r := Merge([], 1, l, block).locs;
    var lo, hi := RoundDown(l.offset, block), RoundUp(End(l), block);
    Rounding(l.offset, block);
    Rounding(End(l), block);
    AppendIs(l, block);
    SpanFits(l, lo, hi);
    if hi - lo < 0x1_0000 { assert Match(l, r[0]).Ok?; }
  }

  lemma AppendIs(l: DeviceLoc, block: nat)
    requires Present(l) && block > 0
    ensures var lo, hi := RoundDown(l.offset, block), RoundUp(End(l), block);
            Merge([], 1, l, block) == Outcome(Success, [l.(offset := U16(lo), count := U16(hi - lo))])
  {}

  lemma SpanFits(l: DeviceLoc, lo: nat, hi: nat)
    requires Present(l) && lo <= l.offset && End(l) <= hi < End(l) + 0x1_0000
    ensures Match(l, l.(offset := U16(lo), count := U16(hi - lo))).Ok? <==> hi - lo < 0x1_0000
  {}

  /** A location that reaches 65535 in blocks of 32 octets is stored with a count of zero, and is not covered. */
  lemma LongSpanUncovered()
    ensures var l := DeviceLoc(Config, 0, 0, 0, 65535);
            && Merge([], 1, l, 32) == Outcome(Success, [DeviceLoc(Config, 0, 0, 0, 0)])
            && !Covered(Merge([], 1, l, 32).locs, l)
  {
    var l := DeviceLoc(Config, 0, 0, 0, 65535);
    assert RoundUp(End(l), 32) == 65536;
  }

  // ----- Code -----

  /** atcacert_merge_device_loc, on a list kept at the front of an array */
  method MergeDeviceLoc(locs: array<DeviceLoc>, count: nat, max: nat, l: DeviceLoc, block: nat)
    returns (status: Status, newCount: nat)
    requires count <= locs.Length && max <= locs.Length
    modifies locs
    ensures newCount <= locs.Length && Outcome(status, locs[..newCount]) == Merge(old(locs[..count]), max, l, block)
  {
    newCount := count;
    if block <= 0 {
      return BadParams, newCount;
    }
    if l.zone == NoZone || l.count == 0 {
      return Success, newCount;
    }
    var newOffset := l.offset / block * block;
    var newEnd := l.offset + l.count;
    newEnd := (if newEnd % block != 0 then newEnd / block + 1 else newEnd / block) * block;
    assert newOffset == RoundDown(l.offset, block) && newEnd == RoundUp(End(l), block);
    ghost var was := locs[..count];
    var i := FindMergeable(locs, count, l, newOffset, newEnd);
    if i < count {
      var cur := locs[i];
      locs[i] := Grown(cur, l, newEnd);
      assert locs[..count] == was[i := Grown(cur, l, newEnd)];
      return Success, newCount;
    }
    if count >= max {
      return BufferTooSmall, newCount;
    }
    locs[count] := l.(offset := U16(newOffset), count := U16(newEnd - newOffset));
    assert locs[..count + 1] == was + [locs[count]];
    return Success, count + 1;
  }

  /** The search loop of atcacert_merge_device_loc. */
  method FindMergeable(locs: array<DeviceLoc>, count: nat, l: DeviceLoc, newOffset: nat, newEnd: nat) returns (i: nat)
    requires count <= locs.Length
    ensures i == FirstMergeable(locs[..count], l, newOffset, newEnd, 0)
  {
    ghost var was := locs[..count];
    i := 0;
    while i < count
      invariant i <= count
      invariant FirstMergeable(was, l, newOffset, newEnd, i) == FirstMergeable(was, l, newOffset, newEnd, 0)
    {
      var cur := locs[i];
      assert cur == was[i];
      if l.zone != cur.zone || (l.zone == Data && l.slot != cur.slot) || (l.zone == Data && l.isGenkey != cur.isGenkey)
         || newEnd < cur.offset || newOffset > cur.offset + cur.count {
        i := i + 1;
        continue;
      }
      break;
    }
  }

  /** atcacert_get_device_locs */
  method GetDeviceLocs(p: Places, locs: array<DeviceLoc>, count: nat, max: nat, block: nat)
    returns (status: Status, newCount: nat)
    requires count <= locs.Length && max <= locs.Length
    modifies locs
    ensures newCount <= locs.Length
    ensures Outcome(status, locs[..newCount]) == MergeAll(old(locs[..count]), max, Needed(p), block)
  {
    hide Merge, NeedsDeviceSn;
    ghost var wanted, was := Needed(p), locs[..count];
    status, newCount := MergeDeviceLoc(locs, count, max, p.compCert, block);
    MergeStep(was, max, wanted, block);
    if status != Success {
      return;
    }
    ghost var was1 := locs[..newCount];
    status, newCount := MergeDeviceLoc(locs, newCount, max, p.certSn, block);
    MergeStep(was1, max, wanted[1..], block);
    if status != Success {
      return;
    }
    ghost var was2 := locs[..newCount];
    status, newCount := MergeDeviceLoc(locs, newCount, max, p.publicKey, block);
    MergeStep(was2, max, wanted[2..], block);
    if status != Success {
      return;
    }
    assert wanted[1..][1..] == wanted[2..] && wanted[2..][1..] == wanted[3..];
    var i := 0;
    while i < |p.elements|
      invariant 0 <= i <= |p.elements| && newCount <= locs.Length && status == Success
      invariant MergeAll(locs[..newCount], max, wanted[3 + i..], block) == MergeAll(was, max, wanted, block)
    {
      ghost var before := locs[..newCount];
      assert wanted[3 + i] == p.elements[i] && wanted[3 + i..][1..] == wanted[3 + (i + 1)..];
      status, newCount := MergeDeviceLoc(locs, newCount, max, p.elements[i], block);
      MergeStep(before, max, wanted[3 + i..], block);
      if status != Success {
        return;
      }
      i := i + 1;
    }
    if NeedsDeviceSn(p.snSource) {
      ghost var before := locs[..newCount];
      assert wanted[3 + i..] == [DEVICE_SN];
      status, newCount := MergeDeviceLoc(locs, newCount, max, DEVICE_SN, block);
      MergeStep(before, max, wanted[3 + i..], block);
    }
  }

  lemma MergeStep(locs: seq<DeviceLoc>, max: nat, wanted: seq<DeviceLoc>, block: nat)
    requires wanted != []
    ensures var r := Merge(locs, max, wanted[0], block);
            && (r.status != Success ==> MergeAll(locs, max, wanted, block) == r)
            && (r.status == Success ==> MergeAll(locs, max, wanted, block) == MergeAll(r.locs, max, wanted[1..], block))
  {}
}
