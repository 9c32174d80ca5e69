/**
 * The comma-separated id segment of `/api/stations/<station_id>` (`by_index` in
 * app.py), split as Python's `str.split(",")` does: every comma separates two
 * ids, so empty ids appear between adjacent commas and at either end.
 */
module IdList {

  /** `",".join(parts)`. */
  function Join(parts: seq<string>): string
    decreases |parts|
  {
    if |parts| == 0 then ""
    else if |parts| == 1 then parts[0]
    else parts[0] + "," + Join(parts[1..])
  }

  /** No part contains the separator. */
  predicate CommaFree(parts: seq<string>) {
    forall i :: 0 <= i < |parts| ==> ',' !in parts[i]
  }

  /** `segment.split(",")`: at least one id, none holding a comma, joining back to the segment. */
  function SplitOnComma(segment: string): (ids: seq<string>)
    ensures |ids| >= 1
    ensures CommaFree(ids)
    ensures Join(ids) == segment
    decreases |segment|
  {
    if segment == [] then
      [""]
    else
      var rest := SplitOnComma(segment[1..]);
      assert segment == [segment[0]] + segment[1..];
      if segment[0] == ',' then
        [""] + rest
      else
        assert Join([[segment[0]] + rest[0]] + rest[1..]) == [segment[0]] + Join(rest) by {
          if |rest| > 1 {
            assert ([[segment[0]] + rest[0]] + rest[1..])[1..] == rest[1..];
          }
        }
        [[segment[0]] + rest[0]] + rest[1..]
    }

  /** There is one id more than the segment has commas. */
  lemma {:induction false} SplitCountsCommas(segment: string)
    ensures |SplitOnComma(segment)| == multiset(segment)[','] + 1
    decreases |segment|
  {
    if segment != [] {
      assert segment == [segment[0]] + segment[1..];
      assert multiset(segment) == multiset([segment[0]]) + multiset(segment[1..]);
      SplitCountsCommas(segment[1..]);
    }
  }

  /** Splitting a comma-free prefix followed by `tail` glues the prefix onto the first id of `tail`. */
  lemma {:induction false} SplitCommaFreePrefix(prefix: string, tail: string)
    requires ',' !in prefix
    ensures SplitOnComma(prefix + tail)
              == [prefix + SplitOnComma(tail)[0]] + SplitOnComma(tail)[1..]
    decreases |prefix|
  {
    if prefix == [] {
      assert prefix + tail == tail;
      var t := SplitOnComma(tail);
      assert prefix + t[0] == t[0] && t == [t[0]] + t[1..];
    } else {
      var c, rest := prefix[0], prefix[1..];
      assert (prefix + tail)[0] == c;
      assert (prefix + tail)[1..] == rest + tail;
      var t := SplitOnComma(tail);
      var inner := SplitOnComma(rest + tail);
      SplitCommaFreePrefix(rest, tail);
      assert inner[0] == rest + t[0] && inner[1..] == t[1..];
      assert SplitOnComma(prefix + tail) == [[c] + inner[0]] + inner[1..];
      assert [c] + (rest + t[0]) == prefix + t[0];
    }
  }

  /** Splitting undoes joining: a non-empty list of comma-free ids is recovered from its joined segment. */
  lemma {:induction false} SplitJoin(ids: seq<string>)
    requires |ids| >= 1 && CommaFree(ids)
    ensures SplitOnComma(Join(ids)) == ids
    decreases |ids|
  {
    if |ids| == 1 {
      SplitCommaFreePrefix(ids[0], "");
      assert ids[0] + "" == ids[0];
    } else {
      var tail := "," + Join(ids[1..]);
      assert Join(ids) == ids[0] + tail;
      assert tail[0] == ',' && tail[1..] == Join(ids[1..]);
      SplitJoin(ids[1..]);
      var t := SplitOnComma(tail);
      assert t == [""] + ids[1..];
      SplitCommaFreePrefix(ids[0], tail);
      assert t[0] == "" && t[1..] == ids[1..];
      assert ids[0] + "" == ids[0];
      assert ids == [ids[0]] + ids[1..];
    }
  }
}
