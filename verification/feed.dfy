/** The feed records and the time-window filter applied to a response
    (`InstaContent::filterResponse`). */
module Feed {
  import opened Wrappers

  /** One entry of the response's `data` array. Only `created_time` is
      inspected; every other field travels through untouched and is kept here
      as one opaque value. */
  datatype Record = Record(createdTime: int, fields: string)

  /** A response body as the filter sees it, after `json_decode`.
      `Falsy` is a body PHP treats as false (`false` from a failed transfer,
      the empty string, "0"); `Body` is any other body, with `data` the
      decoded `data` array, or `None` when the body is not JSON or has no
      such array (the loop then iterates over nothing). */
  datatype Payload =
    | Falsy
    | Body(data: Option<seq<Record>>)

  /** What the filter returns: `false`, or the JSON encoding of a non-empty
      list of records (the encoding is taken to be the list itself). */
  datatype FilterResult =
    | NoRecords
    | Encoded(records: seq<Record>)

  /** The test the loop applies to each record: strictly newer than the threshold. */
  predicate Newer(r: Record, timeFrom: int)
  {
    r.createdTime > timeFrom
  }

  /** `p` is a prefix of `rs` all of whose records are newer than `timeFrom`. */
  predicate IsNewerPrefix(p: seq<Record>, rs: seq<Record>, timeFrom: int)
  {
    && |p| <= |rs|
    && p == rs[..|p|]
    && forall i :: 0 <= i < |p| ==> Newer(p[i], timeFrom)
  }

  /** `p` is such a prefix and cannot be extended: it is all of `rs`, or the
      record right after it is not newer. */
  predicate IsLongestNewerPrefix(p: seq<Record>, rs: seq<Record>, timeFrom: int)
  {
    && IsNewerPrefix(p, rs, timeFrom)
    && (|p| == |rs| || !Newer(rs[|p|], timeFrom))
  }

  /** The records the loop keeps: it appends while the test holds and leaves
      at the first record that fails it. */
  function TakeNewer(rs: seq<Record>, timeFrom: int): (p: seq<Record>)
    ensures IsLongestNewerPrefix(p, rs, timeFrom)
  {
    if |rs| == 0 then []
    else if Newer(rs[0], timeFrom) then
      var rest := TakeNewer(rs[1..], timeFrom);
      assert rs == [rs[0]] + rs[1..];
      [rs[0]] + rest
    else []
  }

  /** Only one prefix of `rs` is newer-throughout and unextendable. */
  lemma LongestNewerPrefixIsUnique(p: seq<Record>, rs: seq<Record>, timeFrom: int)
    requires IsLongestNewerPrefix(p, rs, timeFrom)
    ensures p == TakeNewer(rs, timeFrom)
  {
  }

  /** No prefix of newer records is longer than the one the loop keeps. */
  lemma TakeNewerIsLongest(q: seq<Record>, rs: seq<Record>, timeFrom: int)
    requires IsNewerPrefix(q, rs, timeFrom)
    ensures |q| <= |TakeNewer(rs, timeFrom)|
    ensures q == TakeNewer(rs, timeFrom)[..|q|]
  {
  }

  /** The stop rule: once a record fails the test, nothing after it matters.
      Whatever follows that record, the filter keeps the same records. */
  lemma StopRule(rs: seq<Record>, k: nat, timeFrom: int, later: seq<Record>)
    requires k < |rs| && !Newer(rs[k], timeFrom)
    ensures |TakeNewer(rs, timeFrom)| <= k
    ensures TakeNewer(rs, timeFrom) == TakeNewer(rs[..k + 1] + later, timeFrom)
  {
    var p := TakeNewer(rs, timeFrom);
    var rs' := rs[..k + 1] + later;
    assert rs'[..|p|] == rs[..|p|];
    assert rs'[|p|] == rs[|p|];
    assert IsLongestNewerPrefix(p, rs', timeFrom);
    LongestNewerPrefixIsUnique(p, rs', timeFrom);
  }

  /** Threshold 85 on creation times [100, 90, 80, 95]: the loop stops at 80,
      so 95 is dropped although it is newer than the threshold. */
  lemma StopRuleExample(f: string)
    ensures TakeNewer([Record(100, f), Record(90, f), Record(80, f), Record(95, f)], 85)
            == [Record(100, f), Record(90, f)]
  {
    var rs := [Record(100, f), Record(90, f), Record(80, f), Record(95, f)];
    LongestNewerPrefixIsUnique([Record(100, f), Record(90, f)], rs, 85);
  }

  /** `a` is `b` with some records removed and the rest kept in order. */
  predicate IsSubsequence(a: seq<Record>, b: seq<Record>)
    decreases |b|
  {
    if |a| == 0 then true
    else if |b| == 0 then false
    else if a[0] == b[0] then IsSubsequence(a[1..], b[1..])
    else IsSubsequence(a, b[1..])
  }

  /** How many times `x` occurs in `rs`. */
  function Occurrences(rs: seq<Record>, x: Record): nat
  {
    if |rs| == 0 then 0
    else (if rs[0] == x then 1 else 0) + Occurrences(rs[1..], x)
  }

  /** `r` holds each newer record exactly as often as `rs` does, and no other record. */
  ghost predicate KeepsNewerCounts(r: seq<Record>, rs: seq<Record>, timeFrom: int)
  {
    forall x :: Occurrences(r, x) == if Newer(x, timeFrom) then Occurrences(rs, x) else 0
  }

  /** Reference definition: every newer record, wherever it stands. */
  function FilterAll(rs: seq<Record>, timeFrom: int): (r: seq<Record>)
    ensures |r| <= |rs|
    ensures forall i :: 0 <= i < |r| ==> Newer(r[i], timeFrom) && r[i] in rs
    ensures forall i :: 0 <= i < |rs| && Newer(rs[i], timeFrom) ==> rs[i] in r
  {
    if |rs| == 0 then []
    else
      var rest := FilterAll(rs[1..], timeFrom);
      assert forall i :: 1 <= i < |rs| ==> rs[i] == rs[1..][i - 1];
      if Newer(rs[0], timeFrom) then [rs[0]] + rest else rest
  }

  /** The reference filter keeps the records in the order of the input. */
  lemma {:induction false} FilterAllKeepsOrder(rs: seq<Record>, timeFrom: int)
    ensures IsSubsequence(FilterAll(rs, timeFrom), rs)
  {
    if |rs| > 0 {
      FilterAllKeepsOrder(rs[1..], timeFrom);
      var rest := FilterAll(rs[1..], timeFrom);
      if Newer(rs[0], timeFrom) {
        assert ([rs[0]] + rest)[1..] == rest;
      } else if |rest| > 0 {
        assert Newer(rest[0], timeFrom);
      }
    }
  }

  /** The reference filter keeps each newer record exactly as often as it
      occurs in the input, and no other record. */
  lemma {:induction false} FilterAllKeepsNewerCounts(rs: seq<Record>, timeFrom: int)
    ensures KeepsNewerCounts(FilterAll(rs, timeFrom), rs, timeFrom)
  {
    if |rs| > 0 {
      FilterAllKeepsNewerCounts(rs[1..], timeFrom);
      var rest := FilterAll(rs[1..], timeFrom);
      if Newer(rs[0], timeFrom) {
        assert ([rs[0]] + rest)[1..] == rest;
      }
    }
  }

  /** Records arrive newest first: creation times never increase. */
  predicate NewestFirst(rs: seq<Record>)
  {
    forall i, j :: 0 <= i < j < |rs| ==> rs[i].createdTime >= rs[j].createdTime
  }

  /** When no record is newer, the reference filter keeps nothing. */
  lemma FilterAllOfOlder(rs: seq<Record>, timeFrom: int)
    requires forall i :: 0 <= i < |rs| ==> !Newer(rs[i], timeFrom)
    ensures FilterAll(rs, timeFrom) == []
  {
  }

  /** The stop rule only loses records when the newest-first order is broken:
      on a newest-first sequence it keeps exactly the newer records. */
  lemma {:induction false} NewestFirstTakeNewerIsFilterAll(rs: seq<Record>, timeFrom: int)
    requires NewestFirst(rs)
    ensures TakeNewer(rs, timeFrom) == FilterAll(rs, timeFrom)
  {
    if |rs| == 0 {
    } else if Newer(rs[0], timeFrom) {
      assert NewestFirst(rs[1..]) by {
        forall i, j | 0 <= i < j < |rs[1..]|
          ensures rs[1..][i].createdTime >= rs[1..][j].createdTime
        {
          assert rs[1..][i] == rs[i + 1] && rs[1..][j] == rs[j + 1];
        }
      }
      NewestFirstTakeNewerIsFilterAll(rs[1..], timeFrom);
    } else {
      assert forall i :: 0 <= i < |rs[1..]| ==> rs[1..][i] == rs[i + 1];
      assert forall i :: 0 <= i < |rs[1..]| ==> !Newer(rs[1..][i], timeFrom);
      FilterAllOfOlder(rs[1..], timeFrom);
    }
  }

  /** The counterpart on the example above: the reference filter keeps 95 too,
      so the stop rule and the reference filter differ once the order is broken. */
  lemma StopRuleDiffersFromFilterAll(f: string)
    ensures FilterAll([Record(100, f), Record(90, f), Record(80, f), Record(95, f)], 85)
            == [Record(100, f), Record(90, f), Record(95, f)]
    ensures TakeNewer([Record(100, f), Record(90, f), Record(80, f), Record(95, f)], 85)
            != FilterAll([Record(100, f), Record(90, f), Record(80, f), Record(95, f)], 85)
  {
    var rs := [Record(100, f), Record(90, f), Record(80, f), Record(95, f)];
    assert rs[1..] == [Record(90, f), Record(80, f), Record(95, f)];
    assert rs[1..][1..] == [Record(80, f), Record(95, f)];
    assert rs[1..][1..][1..] == [Record(95, f)];
    assert FilterAll([Record(95, f)], 85) == [Record(95, f)];
    assert FilterAll(rs[1..][1..], 85) == [Record(95, f)];
    assert FilterAll(rs[1..], 85) == [Record(90, f), Record(95, f)];
    StopRuleExample(f);
  }

  /** `filterResponse`: `false` unless the body is truthy, the threshold is
      numeric, and the first record of `data` is newer than it; otherwise
      the encoded longest newer prefix of `data`. */
  function FilterResponse(response: Payload, timeFrom: Option<int>): (r: FilterResult)
    ensures r.Encoded? <==>
              && response.Body? && timeFrom.Some? && response.data.Some?
              && |response.data.value| > 0
              && Newer(response.data.value[0], timeFrom.value)
    ensures r.Encoded? ==>
              && |r.records| > 0
              && IsLongestNewerPrefix(r.records, response.data.value, timeFrom.value)
  {
    if response.Falsy? || timeFrom.None? then NoRecords
    else match response.data
      case None => NoRecords
      case Some(data) =>
        var kept := TakeNewer(data, timeFrom.value);
        if |kept| > 0 then Encoded(kept) else NoRecords
  }

  /** `filterResponse` as written: the `foreach` that appends matching
      records to `$arrRecords` and breaks at the first that does not match. */
  method FilterResponseLoop(response: Payload, timeFrom: Option<int>) returns (r: FilterResult)
    ensures r == FilterResponse(response, timeFrom)
  {
    var arrRecords: seq<Record> := [];
    if response.Body? && timeFrom.Some? && response.data.Some? {
      var data := response.data.value;
      var t := timeFrom.value;
      var i := 0;
      while i < |data|
        invariant 0 <= i <= |data|
        invariant arrRecords == data[..i]
        invariant forall k :: 0 <= k < i ==> Newer(data[k], t)
      {
        if Newer(data[i], t) {
          arrRecords := arrRecords + [data[i]];
          i := i + 1;
        } else {
          break;
        }
      }
      LongestNewerPrefixIsUnique(arrRecords, data, t);
    }
    r := if |arrRecords| > 0 then Encoded(arrRecords) else NoRecords;
  }
}
