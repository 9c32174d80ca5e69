/**
 * The JSON envelope wrapped around every station result list
 * (`_envelope_reduce` and `_make_envelope` in app.py).  Its "updated" value is the
 * freshness of the least fresh station in the list: a left fold that keeps the
 * entry with the oldest last-update instant and passes over entries that have none.
 */
module Envelope {
  import opened Wrappers

  /** An opaque, totally ordered instant (a `datetime` in the service). */
  type Instant = int

  /** One element of a result list: the station it describes and when its data was fetched. */
  datatype StationResult = StationResult(id: string, lastUpdate: Option<Instant>)

  /** The response body: the result list and its aggregate freshness. */
  datatype Envelope = Envelope(data: seq<StationResult>, updated: Option<Instant>)

  /**
   * The reducer: of two entries, the one with the older timestamp; an entry
   * without a timestamp never wins over one that has one; on equal timestamps
   * the second argument wins.
   */
  function EnvelopeReduce(a: StationResult, b: StationResult): (r: StationResult)
    ensures r == a || r == b
    ensures (a.lastUpdate.Some? || b.lastUpdate.Some?) ==> r.lastUpdate.Some?
    ensures a.lastUpdate.Some? && b.lastUpdate.Some? ==>
              r.lastUpdate.value <= a.lastUpdate.value && r.lastUpdate.value <= b.lastUpdate.value
    ensures a.lastUpdate.None? ==> r == b
    ensures a.lastUpdate.Some? && b.lastUpdate.None? ==> r == a
    ensures a.lastUpdate == b.lastUpdate ==> r == b
  {
    if a.lastUpdate.Some? && b.lastUpdate.Some? then
      if a.lastUpdate.value < b.lastUpdate.value then a else b
    else if a.lastUpdate.Some? then
      a
    else
      b
  }

  /** Which timestamp survives one step does not depend on the order of the two arguments. */
  lemma EnvelopeReduceStampSymmetric(a: StationResult, b: StationResult)
    ensures EnvelopeReduce(a, b).lastUpdate == EnvelopeReduce(b, a).lastUpdate
  {
  }

  /** A left fold, as `functools.reduce` performs it. */
  function FoldLeft<A, B>(f: (B, A) -> B, acc: B, xs: seq<A>): B
    decreases |xs|
  {
    if xs == [] then acc else FoldLeft(f, f(acc, xs[0]), xs[1..])
  }

  /** Folding the reducer over `xs` from `acc` ends on `acc` or on an entry of `xs`. */
  lemma {:induction false} FoldReduceIsAnInput(acc: StationResult, xs: seq<StationResult>)
    ensures FoldLeft(EnvelopeReduce, acc, xs) == acc || FoldLeft(EnvelopeReduce, acc, xs) in xs
    decreases |xs|
  {
    if xs != [] {
      FoldReduceIsAnInput(EnvelopeReduce(acc, xs[0]), xs[1..]);
      assert xs == [xs[0]] + xs[1..];
    }
  }

  /** `reduce(_envelope_reduce, data)`: with no initial value the fold is seeded with the first entry, and it ends on an entry of the list. */
  function Reduce(data: seq<StationResult>): (r: StationResult)
    requires |data| > 0
    ensures r in data
  {
    FoldReduceIsAnInput(data[0], data[1..]);
    assert data == [data[0]] + data[1..];
    FoldLeft(EnvelopeReduce, data[0], data[1..])
  }

  /** `_make_envelope`: the list itself and, when it is non-empty, the folded entry's timestamp. */
  function MakeEnvelope(data: seq<StationResult>): (e: Envelope)
    ensures e.data == data
    ensures |data| == 0 ==> e.updated.None?
    ensures e.updated.Some? ==> exists i :: 0 <= i < |data| && data[i].lastUpdate == e.updated
  {
    Envelope(data, if |data| == 0 then None else Reduce(data).lastUpdate)
  }

  /** Some entry of the list carries a timestamp. */
  ghost predicate AnyPresent(data: seq<StationResult>) {
    exists i :: 0 <= i < |data| && data[i].lastUpdate.Some?
  }

  /** Entry `k` carries a timestamp that no other timestamp in the list is older than. */
  ghost predicate IsOldest(data: seq<StationResult>, k: int) {
    && 0 <= k < |data|
    && data[k].lastUpdate.Some?
    && forall j :: 0 <= j < |data| && data[j].lastUpdate.Some? ==>
         data[k].lastUpdate.value <= data[j].lastUpdate.value
  }

  /**
   * The entry the fold settles on: the last of the oldest timestamped entries,
   * or the last entry when none carries a timestamp.
   */
  ghost predicate IsChosen(data: seq<StationResult>, k: int) {
    && 0 <= k < |data|
    && if AnyPresent(data) then
         && IsOldest(data, k)
         && forall j :: k < j < |data| && data[j].lastUpdate.Some? ==>
              data[k].lastUpdate.value < data[j].lastUpdate.value
       else
         k == |data| - 1
  }

  lemma {:induction false} FoldLeftSnoc<A, B>(f: (B, A) -> B, acc: B, xs: seq<A>, x: A)
    ensures FoldLeft(f, acc, xs + [x]) == f(FoldLeft(f, acc, xs), x)
    decreases |xs|
  {
    if xs == [] {
      assert xs + [x] == [x];
      assert [x][1..] == [];
    } else {
      assert (xs + [x])[0] == xs[0];
      assert (xs + [x])[1..] == xs[1..] + [x];
      FoldLeftSnoc(f, f(acc, xs[0]), xs[1..], x);
    }
  }

  /** Folding one more entry in combines it with the fold of the entries before it. */
  lemma ReduceSnoc(data: seq<StationResult>, x: StationResult)
    requires |data| > 0
    ensures Reduce(data + [x]) == EnvelopeReduce(Reduce(data), x)
  {
    assert (data + [x])[0] == data[0];
    assert (data + [x])[1..] == data[1..] + [x];
    FoldLeftSnoc(EnvelopeReduce, data[0], data[1..], x);
  }

  /** The fold returns the last of the oldest timestamped entries, or the last entry if none has a timestamp. */
  lemma {:induction false} ReduceChoosesLastOldest(data: seq<StationResult>)
    requires |data| > 0
    ensures exists k :: IsChosen(data, k) && Reduce(data) == data[k]
    decreases |data|
  {
    var n := |data| - 1;
    if n == 0 {
      assert [data[0]][1..] == [];
      assert IsChosen(data, 0);
    } else {
      var p, x := data[..n], data[n];
      assert data == p + [x];
      ReduceSnoc(p, x);
      ReduceChoosesLastOldest(p);
      var k' :| IsChosen(p, k') && Reduce(p) == p[k'];
      assert p[k'] == data[k'];
      if AnyPresent(p) {
        assert AnyPresent(data) by {
          var i :| 0 <= i < |p| && p[i].lastUpdate.Some?;
          assert data[i] == p[i];
        }
        if x.lastUpdate.Some? && x.lastUpdate.value <= p[k'].lastUpdate.value {
          assert Reduce(data) == data[n];
          assert IsOldest(data, n) by {
            forall j | 0 <= j < |data| && data[j].lastUpdate.Some?
              ensures data[n].lastUpdate.value <= data[j].lastUpdate.value
            {
              if j < n { assert data[j] == p[j]; }
            }
          }
          assert IsChosen(data, n);
        } else {
          assert Reduce(data) == data[k'];
          assert IsChosen(data, k') by {
            forall j | 0 <= j < |data| && data[j].lastUpdate.Some?
              ensures data[k'].lastUpdate.value <= data[j].lastUpdate.value
            {
              if j < n { assert data[j] == p[j]; }
            }
            forall j | k' < j < |data| && data[j].lastUpdate.Some?
              ensures data[k'].lastUpdate.value < data[j].lastUpdate.value
            {
              if j < n { assert data[j] == p[j]; }
            }
          }
        }
      } else {
        assert p[k'].lastUpdate.None?;
        assert Reduce(data) == data[n];
        forall i | 0 <= i < n ensures data[i].lastUpdate.None? {
          assert data[i] == p[i];
        }
        if x.lastUpdate.Some? {
          assert AnyPresent(data);
          assert IsOldest(data, n);
        } else {
          assert !AnyPresent(data);
        }
        assert IsChosen(data, n);
      }
    }
  }

  /** "updated" is absent exactly when no entry carries a timestamp, the empty list included. */
  lemma MakeEnvelopeAbsentIff(data: seq<StationResult>)
    ensures MakeEnvelope(data).updated.None? <==> !AnyPresent(data)
  {
    if |data| > 0 {
      ReduceChoosesLastOldest(data);
    }
  }

  /** With at least one timestamp present, "updated" is the oldest of them, never a fresher one. */
  lemma MakeEnvelopeOldest(data: seq<StationResult>)
    requires AnyPresent(data)
    ensures MakeEnvelope(data).updated.Some?
    ensures exists i :: 0 <= i < |data| && data[i].lastUpdate == MakeEnvelope(data).updated
    ensures forall j :: 0 <= j < |data| && data[j].lastUpdate.Some? ==>
              MakeEnvelope(data).updated.value <= data[j].lastUpdate.value
  {
    ReduceChoosesLastOldest(data);
    var k :| IsChosen(data, k) && Reduce(data) == data[k];
    assert data[k].lastUpdate == MakeEnvelope(data).updated;
  }

  /** The order of the result list does not change "updated" (though it may change which entry is folded to). */
  lemma MakeEnvelopeOrderIndependent(s: seq<StationResult>, t: seq<StationResult>)
    requires multiset(s) == multiset(t)
    ensures MakeEnvelope(s).updated == MakeEnvelope(t).updated
  {
    assert AnyPresent(s) <==> AnyPresent(t) by {
      SamePresence(s, t);
      SamePresence(t, s);
    }
    MakeEnvelopeAbsentIff(s);
    MakeEnvelopeAbsentIff(t);
    if AnyPresent(s) {
      MakeEnvelopeOldest(s);
      MakeEnvelopeOldest(t);
      var i :| 0 <= i < |s| && s[i].lastUpdate == MakeEnvelope(s).updated;
      var j :| 0 <= j < |t| && t[j].lastUpdate == MakeEnvelope(t).updated;
      InOther(s, t, i);
      InOther(t, s, j);
    }
  }

  /** An entry of `s` is an entry of any rearrangement `t` of `s`. */
  lemma InOther(s: seq<StationResult>, t: seq<StationResult>, i: int)
    requires multiset(s) == multiset(t) && 0 <= i < |s|
    ensures exists j :: 0 <= j < |t| && t[j] == s[i]
  {
    assert s[i] in multiset(t);
    assert s[i] in t;
  }

  lemma SamePresence(s: seq<StationResult>, t: seq<StationResult>)
    requires multiset(s) == multiset(t)
    ensures AnyPresent(s) ==> AnyPresent(t)
  {
    if AnyPresent(s) {
      var i :| 0 <= i < |s| && s[i].lastUpdate.Some?;
      InOther(s, t, i);
    }
  }
}
