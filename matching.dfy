/** The row matcher: every left row is paired with the first right row whose
    'ts' value is equal to its own; a left row without such a partner is
    dropped. */
module Matching {
  import opened Tables

  /** A left row and the right row it was paired with. */
  type Pair = (Row, Row)

  /** Every row carries the key column. */
  predicate Keyed(rows: seq<Row>) {
    forall i :: 0 <= i < |rows| ==> Key in rows[i]
  }

  /** Index of the first row of `rows` whose key equals `ts` (the inner
      loop with its `break`), or None when there is none. */
  function FirstMatch(ts: Value, rows: seq<Row>): (r: Option<nat>)
    requires Keyed(rows)
    ensures r.Some? ==> r.value < |rows| && rows[r.value][Key] == ts
    ensures r.Some? ==> forall k :: 0 <= k < r.value ==> rows[k][Key] != ts
    ensures r.None? <==> forall k :: 0 <= k < |rows| ==> rows[k][Key] != ts
  {
    if rows == [] then None
    else if rows[0][Key] == ts then Some(0)
    else
      match FirstMatch(ts, rows[1..])
      case None => None
      case Some(j) => Some(j + 1)
  }

  /** The pairs one left row contributes: none, or one with its first match. */
  function PairsOf(row: Row, right: seq<Row>): (r: seq<Pair>)
    requires Key in row && Keyed(right)
    ensures |r| <= 1
    ensures r == [] <==> forall k :: 0 <= k < |right| ==> right[k][Key] != row[Key]
    ensures r != [] ==> r[0].0 == row && Key in r[0].1 && r[0].1[Key] == row[Key]
  {
    match FirstMatch(row[Key], right)
    case None => []
    case Some(j) => [(row, right[j])]
  }

  /** The pairs the nested loop forms, in left-row order. */
  function MatchPairs(left: seq<Row>, right: seq<Row>): seq<Pair>
    requires Keyed(left) && Keyed(right)
  {
    if left == [] then []
    else MatchPairs(left[..|left| - 1], right) + PairsOf(left[|left| - 1], right)
  }

  /** Proof step for the outer loop: one more left row. */
  lemma MatchPairsStep(left: seq<Row>, right: seq<Row>, i: nat)
    requires Keyed(left) && Keyed(right) && i < |left|
    ensures Keyed(left[..i]) && Keyed(left[..i + 1])
    ensures MatchPairs(left[..i + 1], right) == MatchPairs(left[..i], right) + PairsOf(left[i], right)
  {
    assert left[..i + 1][..i] == left[..i];
  }

  /** Each left row yields at most one pair, so there are never more pairs
      than left rows. */
  lemma {:induction false} MatchPairsBound(left: seq<Row>, right: seq<Row>)
    requires Keyed(left) && Keyed(right)
    ensures |MatchPairs(left, right)| <= |left|
  {
    if left != [] {
      MatchPairsBound(left[..|left| - 1], right);
    }
  }

  /** Matching is done row by row in left order: the pairs of a
      concatenation are the pairs of its parts, one after the other. */
  lemma {:induction false} MatchPairsAppend(a: seq<Row>, b: seq<Row>, right: seq<Row>)
    requires Keyed(a) && Keyed(b) && Keyed(right)
    ensures Keyed(a + b)
    ensures MatchPairs(a + b, right) == MatchPairs(a, right) + MatchPairs(b, right)
  {
    if b == [] {
      assert a + b == a;
    } else {
      var n := |b| - 1;
      assert (a + b)[..|a + b| - 1] == a + b[..n];
      assert (a + b)[|a + b| - 1] == b[n];
      MatchPairsAppend(a, b[..n], right);
    }
  }

  /** Pair `p` is left row `i` joined with the earliest right row whose key
      equals that row's. */
  predicate PairedAt(p: Pair, left: seq<Row>, i: nat, right: seq<Row>)
    requires Keyed(left) && Keyed(right)
  {
    && i < |left|
    && p.0 == left[i]
    && FirstMatch(left[i][Key], right).Some?
    && p.1 == right[FirstMatch(left[i][Key], right).value]
  }

  /** Every pair joins a left row with the earliest right row carrying the
      same key, and the pairs keep the order of their left rows: pair `k`
      comes from left row `idx[k]`, with `idx` strictly increasing, and
      every left row that has a partner is one of the `idx[k]`. */
  lemma {:induction false} MatchPairsSound(left: seq<Row>, right: seq<Row>)
    returns (idx: seq<nat>)
    requires Keyed(left) && Keyed(right)
    ensures |idx| == |MatchPairs(left, right)|
    ensures forall k, l :: 0 <= k < l < |idx| ==> idx[k] < idx[l]
    ensures forall k :: 0 <= k < |idx| ==> PairedAt(MatchPairs(left, right)[k], left, idx[k], right)
    ensures forall i :: 0 <= i < |left| && FirstMatch(left[i][Key], right).Some? ==> i in idx
  {
    if left == [] {
      idx := [];
    } else {
      var n := |left| - 1;
      var init := MatchPairsSound(left[..n], right);
      var all := MatchPairs(left, right);
      PairsKept(left, right, init);
      if FirstMatch(left[n][Key], right).Some? {
        idx := init + [n];
        assert all[|init|] == (left[n], right[FirstMatch(left[n][Key], right).value]);
      } else {
        idx := init;
      }
      PartneredListed(left, right, init, idx);
    }
  }

  /** One more left row keeps the pairs of the rows before it, each still
      joined with the same left row. */
  lemma PairsKept(left: seq<Row>, right: seq<Row>, init: seq<nat>)
    requires Keyed(left) && Keyed(right) && left != []
    requires Keyed(left[..|left| - 1])
    requires |init| == |MatchPairs(left[..|left| - 1], right)|
    requires forall k :: 0 <= k < |init| ==>
      PairedAt(MatchPairs(left[..|left| - 1], right)[k], left[..|left| - 1], init[k], right)
    ensures |init| <= |MatchPairs(left, right)|
    ensures forall k :: 0 <= k < |init| ==> PairedAt(MatchPairs(left, right)[k], left, init[k], right)
  {
    var n := |left| - 1;
    var before := MatchPairs(left[..n], right);
    var all := MatchPairs(left, right);
    assert all == before + PairsOf(left[n], right);
    forall k | 0 <= k < |init|
      ensures PairedAt(all[k], left, init[k], right)
    {
      assert PairedAt(before[k], left[..n], init[k], right);
      assert all[k] == before[k];
      assert left[..n][init[k]] == left[init[k]];
    }
  }

  /** One more left row keeps every partnered row listed: the rows before
      it were listed, and it is listed itself when it has a partner. */
  lemma PartneredListed(left: seq<Row>, right: seq<Row>, init: seq<nat>, idx: seq<nat>)
    requires Keyed(left) && Keyed(right) && left != []
    requires forall i :: 0 <= i < |left[..|left| - 1]| && FirstMatch(left[..|left| - 1][i][Key], right).Some? ==> i in init
    requires idx == if FirstMatch(left[|left| - 1][Key], right).Some? then init + [|left| - 1] else init
    ensures forall i :: 0 <= i < |left| && FirstMatch(left[i][Key], right).Some? ==> i in idx
  {
    var n := |left| - 1;
    forall i | 0 <= i < |left| && FirstMatch(left[i][Key], right).Some?
      ensures i in idx
    {
      if i < n {
        assert left[..n][i] == left[i];
      }
    }
  }

  /** No left row that has a partner is dropped: it is paired with the
      first right row of equal key. */
  lemma {:induction false} MatchPairsComplete(left: seq<Row>, right: seq<Row>, i: nat, j: nat)
    requires Keyed(left) && Keyed(right)
    requires i < |left| && j < |right| && right[j][Key] == left[i][Key]
    ensures FirstMatch(left[i][Key], right).Some?
    ensures (left[i], right[FirstMatch(left[i][Key], right).value]) in MatchPairs(left, right)
  {
    var n := |left| - 1;
    if i < n {
      MatchPairsComplete(left[..n], right, i, j);
    }
  }
}
