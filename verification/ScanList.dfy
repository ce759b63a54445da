/**
 The provisioning scan list: the strongest networks by name, kept sorted in
 fixed storage, and its tag-length-value form.
 */
module ScanList {
  import opened Bytes
  import opened Wrappers

  const SSID_MAX_LEN: int := 32
  const SCAN_MAX_LEN: int := 240
  const TAG_SSID: u8 := 1
  const TAG_RSSI: u8 := 3
  const TAG_SECURED: u8 := 4

  type i8 = x: int | -128 <= x < 128

  datatype Error = InvalidFormat
  type Result<+T> = Wrappers.Result<T, Error>

  datatype Entry = Entry(ssid: seq<u8>, rssi: i8, secured: bool)

  predicate Named(e: Entry) {
    1 <= |e.ssid| <= SSID_MAX_LEN
  }

  /** `ScanEntry::new`. */
  function NewEntry(ssid: seq<u8>, rssi: i8, secured: bool): (r: Result<Entry>)
    ensures r.Ok? <==> 1 <= |ssid| <= SSID_MAX_LEN
    ensures r.Ok? ==> Named(r.value) && r.value == Entry(ssid, rssi, secured)
  {
    if |ssid| == 0 || |ssid| > SSID_MAX_LEN then Err(InvalidFormat) else Ok(Entry(ssid, rssi, secured))
  }

  // ---------------------------------------------------------------------
  // Pushing
  // ---------------------------------------------------------------------

  /** Where `ssid` is listed; the length of the list when it is not. */
  function Find(list: seq<Entry>, ssid: seq<u8>): (at: nat)
    ensures at <= |list|
    ensures at < |list| ==> list[at].ssid == ssid
    ensures forall i | 0 <= i < at :: list[i].ssid != ssid
  {
    if list == [] || list[0].ssid == ssid then 0 else 1 + Find(list[1..], ssid)
  }

  /** In front of every entry weaker than it, behind every other. */
  function Insert(list: seq<Entry>, e: Entry): (r: seq<Entry>)
    ensures |r| == |list| + 1
  {
    if list == [] || list[|list| - 1].rssi >= e.rssi then list + [e]
    else Insert(list[..|list| - 1], e) + [list[|list| - 1]]
  }

  function Without(list: seq<Entry>, at: nat): (r: seq<Entry>)
    requires at < |list|
    ensures |r| == |list| - 1
  {
    list[..at] + list[at + 1..]
  }

  function PushSpec(n: nat, list: seq<Entry>, e: Entry): (r: seq<Entry>)
    requires 0 < n && |list| <= n
    ensures |r| <= n
  {
    var at := Find(list, e.ssid);
    if at < |list| then
      if e.rssi <= list[at].rssi then list else Insert(Without(list, at), e)
    else if |list| == n then
      if e.rssi <= list[n - 1].rssi then list else Insert(list[..n - 1], e)
    else Insert(list, e)
  }

  function PushAll(n: nat, list: seq<Entry>, es: seq<Entry>): (r: seq<Entry>)
    requires 0 < n && |list| <= n
    ensures |r| <= n
    decreases |es|
  {
    if es == [] then list else PushAll(n, PushSpec(n, list, es[0]), es[1..])
  }

  /** An entry goes behind every one as strong and in front of every weaker one. */
  lemma {:induction false} InsertPlace(list: seq<Entry>, e: Entry) returns (i: nat)
    requires Sorted(list)
    ensures i <= |list| && Insert(list, e) == list[..i] + [e] + list[i..]
    ensures forall k | 0 <= k < i :: list[k].rssi >= e.rssi
    ensures forall k | i <= k < |list| :: list[k].rssi < e.rssi
  {
    i := |list|;
    while i > 0 && list[i - 1].rssi < e.rssi
      invariant i <= |list|
      invariant forall k | i <= k < |list| :: list[k].rssi < e.rssi
    {
      i := i - 1;
    }
    InsertAt(list, e, i);
  }

  /** Not stronger than the entry of its name, or than any of a full list: nothing changes. */
  lemma NotStrongerIsRefused(n: nat, list: seq<Entry>, e: Entry, q: Entry)
    requires 0 < n && |list| <= n && Distinct(list) && q in list && e.rssi <= q.rssi
    requires q.ssid == e.ssid || (|list| == n && forall x | x in list :: x.ssid != e.ssid && e.rssi <= x.rssi)
    ensures PushSpec(n, list, e) == list
  {
    var i :| 0 <= i < |list| && list[i] == q;
    var at := Find(list, e.ssid);
    if q.ssid == e.ssid {
      assert at == i;
    }
  }

  /** A push that is taken lists the entry, and drops the one of its name, or else the last of a full list. */
  lemma TakenPush(n: nat, list: seq<Entry>, e: Entry)
    requires 0 < n && |list| <= n && Sorted(list) && Distinct(list)
    ensures (exists q | q in list :: q.ssid == e.ssid && q.rssi < e.rssi) ==>
      forall x :: x in PushSpec(n, list, e) <==> x == e || (x in list && x.ssid != e.ssid)
    ensures (forall q | q in list :: q.ssid != e.ssid) && |list| < n ==>
      forall x :: x in PushSpec(n, list, e) <==> x == e || x in list
    ensures (forall q | q in list :: q.ssid != e.ssid) && |list| == n && list[n - 1].rssi < e.rssi ==>
      forall x :: x in PushSpec(n, list, e) <==> x == e || x in list[..n - 1]
  {
    var at := Find(list, e.ssid);
    if at < |list| {
      WithoutIsTheRest(list, at);
      InsertHas(Without(list, at), e);
      SameNameSameEntry(list, at);
    } else {
      NotListed(list, e.ssid);
      InsertHas(list, e);
      if |list| == n {
        InsertHas(list[..n - 1], e);
      }
    }
  }

  lemma SameNameSameEntry(list: seq<Entry>, at: nat)
    requires at < |list| && Distinct(list)
    ensures forall x | x in list :: x.ssid == list[at].ssid ==> x == list[at]
  {
  }

  // ---------------------------------------------------------------------
  // What the list is, after any pushes
  // ---------------------------------------------------------------------

  ghost predicate Sorted(list: seq<Entry>) {
    forall i, j | 0 <= i < j < |list| :: list[i].rssi >= list[j].rssi
  }

  ghost predicate Distinct(list: seq<Entry>) {
    forall i, j | 0 <= i < j < |list| :: list[i].ssid != list[j].ssid
  }

  /** `p` is on the list under its name, at least as strong; or the list is full of entries as strong. */
  ghost predicate Represented(n: nat, list: seq<Entry>, p: Entry) {
    || (exists q | q in list :: q.ssid == p.ssid && q.rssi >= p.rssi)
    || (|list| == n && forall q | q in list :: q.rssi >= p.rssi)
  }

  /** The top `n` of everything pushed, by each name's best signal. */
  ghost predicate TopOf(n: nat, pushed: set<Entry>, list: seq<Entry>) {
    && |list| <= n && Sorted(list) && Distinct(list)
    && (forall q | q in list :: q in pushed)
    && (forall p | p in pushed :: Represented(n, list, p))
  }

  lemma {:induction false} InsertHas(list: seq<Entry>, e: Entry)
    ensures forall q :: q in Insert(list, e) <==> q in list || q == e
  {
    if list != [] && list[|list| - 1].rssi < e.rssi {
      InsertHas(list[..|list| - 1], e);
      assert list == list[..|list| - 1] + [list[|list| - 1]];
    }
  }

  lemma {:induction false} InsertSorted(list: seq<Entry>, e: Entry)
    requires Sorted(list)
    ensures Sorted(Insert(list, e))
  {
    if list != [] && list[|list| - 1].rssi < e.rssi {
      var front, last := list[..|list| - 1], list[|list| - 1];
      InsertSorted(front, e);
      InsertHas(front, e);
      var r := Insert(front, e);
      forall i | 0 <= i < |r| ensures r[i].rssi >= last.rssi {
        assert r[i] in r;
      }
    }
  }

  lemma {:induction false} InsertDistinct(list: seq<Entry>, e: Entry)
    requires Distinct(list) && forall q | q in list :: q.ssid != e.ssid
    ensures Distinct(Insert(list, e))
  {
    if list != [] && list[|list| - 1].rssi < e.rssi {
      var front, last := list[..|list| - 1], list[|list| - 1];
      InsertDistinct(front, e);
      InsertHas(front, e);
      var r := Insert(front, e);
      forall i | 0 <= i < |r| ensures r[i].ssid != last.ssid {
        assert r[i] in r;
      }
    }
  }

  /** Inserting into what is left after one entry is taken out or dropped. */
  lemma ReplaceKeepsTop(n: nat, pushed: set<Entry>, list: seq<Entry>, left: seq<Entry>, gone: Entry, e: Entry)
    requires TopOf(n, pushed, list) && 0 < n
    requires |left| == |list| - 1 && Sorted(left) && Distinct(left)
    requires forall q :: q in list <==> q in left || q == gone
    requires forall q | q in left :: q.ssid != e.ssid
    requires gone.rssi <= e.rssi
    requires gone.ssid == e.ssid || (|list| == n && forall q | q in list :: q.rssi >= gone.rssi)
    ensures TopOf(n, pushed + {e}, Insert(left, e))
  {
    var r := Insert(left, e);
    InsertHas(left, e);
    InsertSorted(left, e);
    InsertDistinct(left, e);
    forall p | p in pushed + {e} ensures Represented(n, r, p) {
      assert e in r;
      if p != e {
        assert Represented(n, list, p);
        if q :| q in list && q.ssid == p.ssid && q.rssi >= p.rssi {
          if q in left {
            assert q in r;
          }
        }
      }
    }
  }

  lemma AppendKeepsTop(n: nat, pushed: set<Entry>, list: seq<Entry>, e: Entry)
    requires TopOf(n, pushed, list) && |list| < n
    requires forall q | q in list :: q.ssid != e.ssid
    ensures TopOf(n, pushed + {e}, Insert(list, e))
  {
    var r := Insert(list, e);
    InsertHas(list, e);
    InsertSorted(list, e);
    InsertDistinct(list, e);
    forall p | p in pushed + {e} ensures Represented(n, r, p) {
      assert e in r;
      if p != e {
        assert Represented(n, list, p);
        var q :| q in list && q.ssid == p.ssid && q.rssi >= p.rssi;
        assert q in r;
      }
    }
  }

  lemma RefusalKeepsTop(n: nat, pushed: set<Entry>, list: seq<Entry>, e: Entry)
    requires TopOf(n, pushed, list) && Represented(n, list, e)
    ensures TopOf(n, pushed + {e}, list)
  {
  }

  lemma PushKeepsTop(n: nat, pushed: set<Entry>, list: seq<Entry>, e: Entry)
    requires 0 < n && TopOf(n, pushed, list)
    ensures TopOf(n, pushed + {e}, PushSpec(n, list, e))
  {
    var at := Find(list, e.ssid);
    if at < |list| {
      if e.rssi <= list[at].rssi {
        RefusalKeepsTop(n, pushed, list, e);
      } else {
        WithoutIsTheRest(list, at);
        ReplaceKeepsTop(n, pushed, list, Without(list, at), list[at], e);
      }
    } else {
      NotListed(list, e.ssid);
      if |list| == n {
        if e.rssi <= list[n - 1].rssi {
          RefusalKeepsTop(n, pushed, list, e);
        } else {
          LastIsWeakest(list);
          ReplaceKeepsTop(n, pushed, list, list[..n - 1], list[n - 1], e);
        }
      } else {
        AppendKeepsTop(n, pushed, list, e);
      }
    }
  }

  lemma NotListed(list: seq<Entry>, ssid: seq<u8>)
    requires Find(list, ssid) == |list|
    ensures forall q | q in list :: q.ssid != ssid
  {
  }

  lemma WithoutIsTheRest(list: seq<Entry>, at: nat)
    requires at < |list| && Sorted(list) && Distinct(list)
    ensures var left := Without(list, at);
      && Sorted(left) && Distinct(left)
      && (forall q :: q in list <==> q in left || q == list[at])
      && (forall q | q in left :: q.ssid != list[at].ssid)
  {
    var left := Without(list, at);
    assert list == list[..at] + [list[at]] + list[at + 1..];
  }

  lemma LastIsWeakest(list: seq<Entry>)
    requires list != [] && Sorted(list) && Distinct(list)
    ensures var k := |list| - 1;
      && Sorted(list[..k]) && Distinct(list[..k])
      && (forall q :: q in list <==> q in list[..k] || q == list[k])
      && (forall q | q in list :: q.rssi >= list[k].rssi)
  {
    var k := |list| - 1;
    assert list == list[..k] + [list[k]];
  }

  /** Everything pushed, once `es` has been. */
  ghost function PushedAfter(pushed: set<Entry>, es: seq<Entry>): set<Entry>
    decreases |es|
  {
    if es == [] then pushed else PushedAfter(pushed + {es[0]}, es[1..])
  }

  lemma {:induction false} PushedAfterIs(pushed: set<Entry>, es: seq<Entry>)
    ensures forall e :: e in PushedAfter(pushed, es) <==> e in pushed || e in es
    decreases |es|
  {
    if es != [] {
      PushedAfterIs(pushed + {es[0]}, es[1..]);
      assert es == [es[0]] + es[1..];
    }
  }

  lemma {:induction false} PushAllKeepsTop(n: nat, pushed: set<Entry>, list: seq<Entry>, es: seq<Entry>)
    requires 0 < n && TopOf(n, pushed, list)
    ensures TopOf(n, PushedAfter(pushed, es), PushAll(n, list, es))
    decreases |es|
  {
    if es != [] {
      PushKeepsTop(n, pushed, list, es[0]);
      PushAllKeepsTop(n, pushed + {es[0]}, PushSpec(n, list, es[0]), es[1..]);
    }
  }

  /** After any sequence of pushes: sorted, no name twice, only what was pushed, and the top `n` of it. */
  lemma PushAllIsTop(n: nat, es: seq<Entry>)
    requires 0 < n
    ensures TopOf(n, (set e | e in es), PushAll(n, [], es))
  {
    PushAllKeepsTop(n, {}, [], es);
    PushedAfterIs({}, es);
    assert PushedAfter({}, es) == (set e | e in es);
  }

  /** Every listed entry is the strongest ever pushed under its name. */
  lemma ListedIsBest(n: nat, pushed: set<Entry>, list: seq<Entry>, e: Entry, p: Entry)
    requires TopOf(n, pushed, list) && e in list && p in pushed && p.ssid == e.ssid
    ensures e.rssi >= p.rssi
  {
    assert Represented(n, list, p);
    if q :| q in list && q.ssid == p.ssid && q.rssi >= p.rssi {
      var i :| 0 <= i < |list| && list[i] == e;
      var j :| 0 <= j < |list| && list[j] == q;
      assert i == j;
    }
  }

  // ---------------------------------------------------------------------
  // Tag-length-value form
  // ---------------------------------------------------------------------

  function AsByte(x: i8): u8 {
    if x < 0 then x + 256 else x
  }

  function AsSigned(b: u8): i8 {
    if b >= 128 then b as int - 256 else b
  }

  /** `01 len ssid  03 01 rssi  04 01 secured`. */
  function Encode(e: Entry): (b: seq<u8>)
    requires Named(e)
    ensures |b| == 8 + |e.ssid|
  {
    [TAG_SSID, |e.ssid|] + e.ssid
      + ([TAG_RSSI, 1, AsByte(e.rssi)] + [TAG_SECURED, 1, if e.secured then 1 else 0])
  }

  /** What the decoder has read of one network so far. */
  datatype Reading = Reading(ssid: Option<seq<u8>>, rssi: i8, secured: bool)

  function Read(r: Reading, tag: u8, value: seq<u8>): Reading {
    if tag == TAG_SSID then r.(ssid := Some(value))
    else if tag == TAG_RSSI && |value| == 1 then r.(rssi := AsSigned(value[0]))
    else if tag == TAG_SECURED && |value| == 1 then r.(secured := value[0] != 0)
    else r
  }

  /** The records from the front of `bytes` up to the next network: what they say, and how many bytes. */
  function Scan(r: Reading, bytes: seq<u8>): (s: Result<(Reading, nat)>)
    ensures s.Ok? ==> s.value.1 <= |bytes|
    decreases |bytes|
  {
    if bytes == [] || (bytes[0] == TAG_SSID && r.ssid.Some?) then Ok((r, 0))
    else if |bytes| < 2 || 2 + bytes[1] as int > |bytes| then Err(InvalidFormat)
    else
      var size := 2 + bytes[1] as int;
      var rest := Scan(Read(r, bytes[0], bytes[2..size]), bytes[size..]);
      if rest.Err? then rest else Ok((rest.value.0, size + rest.value.1))
  }

  const NOTHING: Reading := Reading(None, 0, false)

  function Decode(bytes: seq<u8>): (d: Result<(Entry, nat)>)
    ensures d.Ok? ==> 2 <= d.value.1 <= |bytes| && Named(d.value.0)
  {
    var s := Scan(NOTHING, bytes);
    if s.Err? then Err(s.error)
    else if s.value.0.ssid.None? then Err(InvalidFormat)
    else
      SomethingRead(NOTHING, bytes);
      var e := NewEntry(s.value.0.ssid.value, s.value.0.rssi, s.value.0.secured);
      if e.Err? then Err(e.error) else Ok((e.value, s.value.1))
  }

  /** Every network decoded takes at least two bytes: decoding a list ends. */
  lemma SomethingRead(r: Reading, bytes: seq<u8>)
    requires r.ssid.None? && Scan(r, bytes).Ok? && Scan(r, bytes).value.0.ssid.Some?
    ensures Scan(r, bytes).value.1 >= 2
  {
  }

  function DecodeAll(n: nat, list: seq<Entry>, bytes: seq<u8>): (r: Result<seq<Entry>>)
    requires 0 < n && |list| <= n
    ensures r.Ok? ==> |r.value| <= n
    decreases |bytes|
  {
    if bytes == [] then Ok(list)
    else
      var d := Decode(bytes);
      if d.Err? then Err(d.error) else DecodeAll(n, PushSpec(n, list, d.value.0), bytes[d.value.1..])
  }

  function EncodeAll(es: seq<Entry>): seq<u8>
    requires forall i | 0 <= i < |es| :: Named(es[i])
  {
    if es == [] then [] else Encode(es[0]) + EncodeAll(es[1..])
  }

  // ---------------------------------------------------------------------
  // Round trip
  // ---------------------------------------------------------------------

  lemma ScanRecord(r: Reading, tag: u8, value: seq<u8>, rest: seq<u8>)
    requires |value| < 256 && !(tag == TAG_SSID && r.ssid.Some?)
    ensures var bytes := [tag, |value|] + value + rest;
      Scan(r, bytes) ==
        var s := Scan(Read(r, tag, value), rest);
        if s.Err? then s else Ok((s.value.0, 2 + |value| + s.value.1))
  {
    var bytes := [tag, |value|] + value + rest;
    assert bytes[2..2 + |value|] == value && bytes[2 + |value|..] == rest;
  }

  /** An entry's bytes: the signal as a two's complement byte, the flag as 0 or 1. */
  lemma EncodeLayout(e: Entry)
    requires Named(e)
    ensures Encode(e) == [1, |e.ssid|] + e.ssid
              + [3, 1, if e.rssi < 0 then e.rssi + 256 else e.rssi, 4, 1, if e.secured then 1 else 0]
  {
  }

  /** What one record says, to an entry whose name is known; other tags, and other lengths, say nothing. */
  lemma OneRecord(r: Reading, tag: u8, value: seq<u8>)
    requires r.ssid.Some? && tag != 1 && |value| < 256
    ensures var s := Scan(r, [tag, |value|] + value);
      && s.Ok? && s.value.1 == 2 + |value|
      && var read := s.value.0;
      && (tag == 3 && |value| == 1 ==>
            read == r.(rssi := if value[0] < 128 then value[0] else value[0] as int - 256))
      && (tag == 4 && |value| == 1 ==> read == r.(secured := value[0] != 0))
      && ((tag != 3 && tag != 4) || |value| != 1 ==> read == r)
  {
    assert [tag, |value|] + value + [] == [tag, |value|] + value;
    ScanRecord(r, tag, value, []);
  }

  /** A name alone: no signal is 0 dBm, no flag is open. */
  lemma BareName(ssid: seq<u8>)
    requires 1 <= |ssid| <= 32
    ensures Decode([1, |ssid|] + ssid) == Ok((Entry(ssid, 0, false), 2 + |ssid|))
  {
    assert [1, |ssid|] + ssid + [] == [1, |ssid|] + ssid;
    ScanRecord(NOTHING, 1, ssid, []);
  }

  /** A record cut short is refused, wherever it is cut. */
  lemma TruncatedIsRefused(r: Reading, tag: u8, value: seq<u8>, k: nat)
    requires 0 < k < 2 + |value| && |value| < 256 && !(tag == 1 && r.ssid.Some?)
    ensures Scan(r, ([tag, |value|] + value)[..k]).Err?
  {
    var cut := ([tag, |value|] + value)[..k];
    assert cut[0] == tag && (k >= 2 ==> cut[1] == |value|);
  }

  /** An encoded entry reads back as itself, whatever network follows it. */
  lemma DecodeOfEncode(e: Entry, rest: seq<u8>)
    requires Named(e) && (rest == [] || rest[0] == TAG_SSID)
    ensures Decode(Encode(e) + rest) == Ok((e, |Encode(e)|))
  {
    var tail := EncodedTail(e, rest);
    ScanName(e.ssid, tail, Reading(Some(e.ssid), e.rssi, e.secured), 6);
    DecodeOfScan(e, Encode(e) + rest, 8 + |e.ssid|);
  }

  /** What follows the name reads as the signal and the flag. */
  lemma EncodedTail(e: Entry, rest: seq<u8>) returns (tail: seq<u8>)
    requires Named(e) && (rest == [] || rest[0] == TAG_SSID)
    ensures Encode(e) + rest == [TAG_SSID, |e.ssid|] + e.ssid + tail
    ensures Scan(Reading(Some(e.ssid), 0, false), tail) == Ok((Reading(Some(e.ssid), e.rssi, e.secured), 6))
  {
    var flag: u8 := if e.secured then 1 else 0;
    EncodeThenRest(e, rest);
    SignComesBack(e.rssi);
    ScanFields(Reading(Some(e.ssid), 0, false), AsByte(e.rssi), flag, rest);
    tail := [TAG_RSSI, 1, AsByte(e.rssi)] + ([TAG_SECURED, 1, flag] + rest);
  }

  lemma SignComesBack(x: i8)
    ensures AsSigned(AsByte(x)) == x
  {
  }

  lemma ScanName(ssid: seq<u8>, tail: seq<u8>, r: Reading, size: nat)
    requires |ssid| < 256 && Scan(Reading(Some(ssid), 0, false), tail) == Ok((r, size))
    ensures Scan(NOTHING, [TAG_SSID, |ssid|] + ssid + tail) == Ok((r, 2 + |ssid| + size))
  {
    ScanRecord(NOTHING, TAG_SSID, ssid, tail);
  }

  lemma EncodeThenRest(e: Entry, rest: seq<u8>)
    requires Named(e)
    ensures Encode(e) + rest == [TAG_SSID, |e.ssid|] + e.ssid
              + ([TAG_RSSI, 1, AsByte(e.rssi)] + ([TAG_SECURED, 1, if e.secured then 1 else 0] + rest))
  {
  }

  lemma DecodeOfScan(e: Entry, bytes: seq<u8>, size: nat)
    requires Named(e)
    requires Scan(NOTHING, bytes) == Ok((Reading(Some(e.ssid), e.rssi, e.secured), size))
    ensures Decode(bytes) == Ok((e, size))
  {
  }

  lemma ScanFields(r: Reading, rssi: u8, flag: u8, rest: seq<u8>)
    requires r.ssid.Some? && (rest == [] || rest[0] == TAG_SSID)
    ensures Scan(r, [TAG_RSSI, 1, rssi] + ([TAG_SECURED, 1, flag] + rest))
         == Ok((r.(rssi := AsSigned(rssi), secured := flag != 0), 6))
  {
    var tail := [TAG_SECURED, 1, flag] + rest;
    var r2 := Read(r, TAG_RSSI, [rssi]);
    assert tail == [TAG_SECURED, 1] + [flag] + rest;
    ScanRecord(r2, TAG_SECURED, [flag], rest);
    assert [TAG_RSSI, 1, rssi] + tail == [TAG_RSSI, 1] + [rssi] + tail;
    ScanRecord(r, TAG_RSSI, [rssi], tail);
  }

  lemma EncodeAllStarts(es: seq<Entry>)
    requires forall i | 0 <= i < |es| :: Named(es[i])
    ensures EncodeAll(es) == [] || EncodeAll(es)[0] == TAG_SSID
  {
  }

  /** A sorted list of distinct names pushed in order keeps its order, up to what the list holds. */
  lemma PushInOrder(n: nat, es: seq<Entry>, i: nat)
    requires 0 < n && i < |es| && Sorted(es) && Distinct(es)
    ensures PushSpec(n, es[..Min(n, i)], es[i]) == es[..Min(n, i + 1)]
  {
    var list := es[..Min(n, i)];
    assert Find(list, es[i].ssid) == |list|;
    if i < n {
      assert list + [es[i]] == es[..i + 1];
    }
  }

  lemma {:induction false} DecodeFrom(n: nat, es: seq<Entry>, i: nat)
    requires 0 < n && i <= |es| && Sorted(es) && Distinct(es)
    requires forall k | 0 <= k < |es| :: Named(es[k])
    ensures DecodeAll(n, es[..Min(n, i)], EncodeAll(es[i..])) == Ok(es[..Min(n, |es|)])
    decreases |es| - i
  {
    if i < |es| {
      var rest := es[i + 1..];
      assert es[i..][1..] == rest;
      EncodeAllStarts(rest);
      DecodeOfEncode(es[i], EncodeAll(rest));
      var bytes := Encode(es[i]) + EncodeAll(rest);
      assert bytes[|Encode(es[i])|..] == EncodeAll(rest);
      PushInOrder(n, es, i);
      DecodeFrom(n, es, i + 1);
    }
  }

  /** How many entries from the front fit `cap` bytes. */
  function Fitting(es: seq<Entry>, cap: nat): (k: nat)
    requires forall i | 0 <= i < |es| :: Named(es[i])
    ensures k <= |es|
  {
    if es == [] || |Encode(es[0])| > cap then 0 else 1 + Fitting(es[1..], cap - |Encode(es[0])|)
  }

  /** They fit, and no longer prefix does. */
  lemma {:induction false} FittingIsLongest(es: seq<Entry>, cap: nat, k: nat)
    requires forall i | 0 <= i < |es| :: Named(es[i])
    requires k <= |es|
    ensures |EncodeAll(es[..k])| <= cap <==> k <= Fitting(es, cap)
    decreases |es|
  {
    if k > 0 {
      assert es[..k][0] == es[0] && es[..k][1..] == es[1..][..k - 1];
      if |Encode(es[0])| <= cap {
        FittingIsLongest(es[1..], cap - |Encode(es[0])|, k - 1);
      }
    }
  }

  /**
   Decoding what was encoded gives exactly the longest prefix that fits the
   buffer and the characteristic, in order, with every field (and of it the
   first `n`, when the decoding list holds fewer).
   */
  lemma RoundTrip(n: nat, es: seq<Entry>, room: nat)
    requires 0 < n && Sorted(es) && Distinct(es)
    requires forall i | 0 <= i < |es| :: Named(es[i])
    ensures var k := Fitting(es, Min(room, 240));
      DecodeAll(n, [], EncodeAll(es[..k])) == Ok(es[..Min(n, k)])
  {
    var k := Fitting(es, Min(room, SCAN_MAX_LEN));
    var p := es[..k];
    assert p[0..] == p && p[..0] == [] && p[..Min(n, k)] == es[..Min(n, k)];
    DecodeFrom(n, p, 0);
  }

  // ---------------------------------------------------------------------
  // The list in its fixed storage
  // ---------------------------------------------------------------------

  /** The insertion point from the back: every entry behind it is weaker, none before it is. */
  lemma {:induction false} InsertAt(list: seq<Entry>, e: Entry, i: nat)
    requires i <= |list|
    requires forall k | i <= k < |list| :: list[k].rssi < e.rssi
    requires i > 0 ==> list[i - 1].rssi >= e.rssi
    ensures Insert(list, e) == list[..i] + [e] + list[i..]
    decreases |list|
  {
    if i < |list| {
      var front := list[..|list| - 1];
      InsertAt(front, e, i);
      assert front[..i] == list[..i] && list[i..] == front[i..] + [list[|list| - 1]];
    } else {
      assert list[..i] == list && list[i..] == [];
      if list != [] {
        assert list[|list| - 1].rssi >= e.rssi;
      }
    }
  }

  class List {
    const entries: array<Entry>
    var len: nat

    ghost predicate Valid()
      reads this
    {
      0 < entries.Length && len <= entries.Length
    }

    ghost function Contents(): (list: seq<Entry>)
      requires Valid()
      reads this, entries
      ensures |list| == len
    {
      entries[..len]
    }

    constructor (n: nat)
      requires 0 < n
      ensures Valid() && Contents() == [] && entries.Length == n && fresh(entries)
    {
      entries := new Entry[n](_ => Entry([], -128, false));
      len := 0;
    }

    method Position(ssid: seq<u8>) returns (at: nat)
      requires Valid()
      ensures at == Find(Contents(), ssid)
    {
      at := 0;
      while at < len && entries[at].ssid != ssid
        invariant at <= len && forall i | 0 <= i < at :: entries[i].ssid != ssid
      {
        at := at + 1;
      }
    }

    /** The shift left over the entry taken out. */
    method Remove(at: nat)
      requires Valid() && at < len
      modifies this, entries
      ensures Valid() && Contents() == Without(old(Contents()), at)
    {
      ghost var was := Contents();
      for j := at to len - 1
        invariant len == |was|
        invariant forall k | 0 <= k < len :: entries[k] == was[if at <= k < j then k + 1 else k]
      {
        entries[j] := entries[j + 1];
      }
      len := len - 1;
      assert forall k | 0 <= k < len :: Contents()[k] == Without(was, at)[k];
    }

    /** The shift right, from the back, to make room in order. */
    method Place(e: Entry)
      requires Valid() && len < entries.Length
      modifies this, entries
      ensures Valid() && Contents() == Insert(old(Contents()), e)
    {
      ghost var was := Contents();
      var i := OpenGap(e);
      entries[i] := e;
      len := len + 1;
      InsertAt(was, e, i);
      assert Contents() == was[..i] + [e] + was[i..];
    }

    method OpenGap(e: Entry) returns (i: nat)
      requires Valid() && len < entries.Length
      modifies entries
      ensures i <= len && (i > 0 ==> old(entries[i - 1]).rssi >= e.rssi)
      ensures forall k | i <= k < len :: old(entries[..])[k].rssi < e.rssi
      ensures forall k | 0 <= k < i :: entries[k] == old(entries[..])[k]
      ensures forall k | i < k <= len :: entries[k] == old(entries[..])[k - 1]
    {
      ghost var was := entries[..];
      i := len;
      while i > 0 && entries[i - 1].rssi < e.rssi
        invariant 0 <= i <= len
        invariant forall k | 0 <= k < i :: entries[k] == was[k]
        invariant forall k | i < k <= len :: entries[k] == was[k - 1]
        invariant forall k | i <= k < len :: was[k].rssi < e.rssi
      {
        entries[i] := entries[i - 1];
        i := i - 1;
      }
    }

    method Push(e: Entry)
      requires Valid()
      modifies this, entries
      ensures Valid() && Contents() == PushSpec(entries.Length, old(Contents()), e)
    {
      var at := Position(e.ssid);
      if at < len {
        if e.rssi <= entries[at].rssi {
          return;
        }
        Remove(at);
      }
      if len == entries.Length {
        if e.rssi <= entries[len - 1].rssi {
          return;
        }
        ghost var was := Contents();
        len := len - 1;
        assert Contents() == was[..len];
      }
      Place(e);
    }

    /** `encode`: entries in order until one no longer fits. */
    method EncodeInto(out: array<u8>) returns (written: nat)
      requires Valid() && forall i | 0 <= i < len :: Named(entries[i])
      modifies out
      ensures var bytes := EncodeAll(Contents()[..Fitting(Contents(), Min(out.Length, 240))]);
        written == |bytes| <= out.Length && out[..] == bytes + old(out[written..])
    {
      written := EncodeList(entries[..len], out);
    }
  }

  lemma FittingStep(list: seq<Entry>, i: nat, cap: nat)
    requires i < |list| && forall k | 0 <= k < |list| :: Named(list[k])
    ensures var size := |Encode(list[i])|;
      Fitting(list[i..], cap) == if size > cap then 0 else 1 + Fitting(list[i + 1..], cap - size)
  {
    assert list[i..][0] == list[i] && list[i..][1..] == list[i + 1..];
  }

  /** The first `i` entries are in the buffer, all of them among those that fit. */
  ghost predicate Written(list: seq<Entry>, i: nat, cap: nat, written: nat, start: seq<u8>, now: seq<u8>) {
    && i <= |list| && (forall k | 0 <= k < |list| :: Named(list[k]))
    && written <= cap <= |start| && written == |EncodeAll(list[..i])|
    && i + Fitting(list[i..], cap - written) == Fitting(list, cap)
    && now == EncodeAll(list[..i]) + start[written..]
  }

  method EncodeList(list: seq<Entry>, out: array<u8>) returns (written: nat)
    requires forall i | 0 <= i < |list| :: Named(list[i])
    modifies out
    ensures var bytes := EncodeAll(list[..Fitting(list, Min(out.Length, 240))]);
      written == |bytes| <= out.Length && out[..] == bytes + old(out[written..])
  {
    var cap := Min(out.Length, SCAN_MAX_LEN);
    ghost var start := out[..];
    written := 0;
    var i := 0;
    while i < |list|
      invariant Written(list, i, cap, written, start, out[..])
    {
      FittingStep(list, i, cap - written);
      if written + |Encode(list[i])| > cap {
        return;
      }
      written := EncodeNext(list, i, cap, written, start, out);
      i := i + 1;
    }
  }

  /** One entry's bytes, after those already written. */
  method EncodeNext(list: seq<Entry>, i: nat, cap: nat, written: nat, ghost start: seq<u8>, out: array<u8>)
    returns (next: nat)
    requires Written(list, i, cap, written, start, out[..]) && i < |list|
    requires written + |Encode(list[i])| <= cap
    modifies out
    ensures Written(list, i + 1, cap, next, start, out[..])
  {
    var bytes := Encode(list[i]);
    CopyInto(out, written, bytes);
    AppendedAfter(EncodeAll(list[..i]), bytes, start);
    EncodeAllOneMore(list, i);
    FittingStep(list, i, cap - written);
    next := written + |bytes|;
  }

  lemma {:induction false} EncodeAllOneMore(es: seq<Entry>, i: nat)
    requires i < |es| && forall k | 0 <= k < |es| :: Named(es[k])
    ensures EncodeAll(es[..i + 1]) == EncodeAll(es[..i]) + Encode(es[i])
    decreases i
  {
    assert es[..i + 1][1..] == es[1..][..i];
    if i > 0 {
      EncodeAllOneMore(es[1..], i - 1);
      assert es[..i][1..] == es[1..][..i - 1];
    }
  }

  /** The loop of `ScanEntry::decode`, record by record. */
  method ScanRecords(bytes: seq<u8>) returns (s: Result<(Reading, nat)>)
    ensures s == Scan(NOTHING, bytes)
  {
    var r, rest, consumed := NOTHING, bytes, 0;
    while rest != [] && !(rest[0] == TAG_SSID && r.ssid.Some?)
      invariant var left := Scan(r, rest);
        Scan(NOTHING, bytes) == if left.Err? then left else Ok((left.value.0, consumed + left.value.1))
      decreases |rest|
    {
      if |rest| < 2 || 2 + rest[1] as int > |rest| {
        return Err(InvalidFormat);
      }
      var size := 2 + rest[1] as int;
      r := Read(r, rest[0], rest[2..size]);
      rest, consumed := rest[size..], consumed + size;
    }
    s := Ok((r, consumed));
  }

  /** `ScanEntry::decode`. */
  method DecodeEntry(bytes: seq<u8>) returns (d: Result<(Entry, nat)>)
    ensures d == Decode(bytes)
  {
    var s := ScanRecords(bytes);
    if s.Err? {
      return Err(s.error);
    }
    var (r, consumed) := s.value;
    if r.ssid.None? {
      return Err(InvalidFormat);
    }
    var e := NewEntry(r.ssid.value, r.rssi, r.secured);
    d := if e.Err? then Err(e.error) else Ok((e.value, consumed));
  }

  /** `ScanList::decode`: it ends on every byte string. */
  method DecodeList(n: nat, bytes: seq<u8>) returns (r: Result<List>)
    requires 0 < n
    ensures match DecodeAll(n, [], bytes)
      case Err(error) => r == Err(error)
      case Ok(es) => r.Ok? && r.value.Valid() && r.value.Contents() == es
  {
    var list := new List(n);
    var rest := bytes;
    while rest != []
      invariant list.Valid() && fresh(list) && fresh(list.entries) && list.entries.Length == n
      invariant DecodeAll(n, list.Contents(), rest) == DecodeAll(n, [], bytes)
      decreases |rest|
    {
      var d := DecodeEntry(rest);
      if d.Err? {
        return Err(d.error);
      }
      list.Push(d.value.0);
      rest := rest[d.value.1..];
    }
    r := Ok(list);
  }
}
