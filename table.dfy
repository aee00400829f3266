// The part of pandas the dashboard relies on, stated over sequences of rows:
// a boolean mask (`frame[mask]`) and `Series.unique()`.

module Table {

  datatype Option<T> = None | Some(value: T)

  /** One row of the tips table. Every CSV column is carried along; the
      dashboard inspects `day`, `time` and `tip`, and plots `totalBill`. */
  datatype Row = Row(totalBill: real, tip: real, sex: string, smoker: string,
                     day: string, time: string, size: int)

  /** `rows[mask]`: the rows for which `keep` holds, in their original order.
      Defined on the last row so that positions need no shifting. */
  function Where(rows: seq<Row>, keep: Row -> bool): (kept: seq<Row>)
    ensures |kept| <= |rows|
    ensures forall r :: r in kept <==> r in rows && keep(r)
  {
    if rows == [] then []
    else
      var init := rows[..|rows| - 1];
      var last := rows[|rows| - 1];
      assert rows == init + [last];
      Where(init, keep) + (if keep(last) then [last] else [])
  }

  predicate Increasing(idx: seq<nat>) {
    forall i, j :: 0 <= i < j < |idx| ==> idx[i] < idx[j]
  }

  /** The positions at which the mask is true, in ascending order: exactly
      the positions of `rows` that `keep` accepts. */
  function Positions(rows: seq<Row>, keep: Row -> bool): (idx: seq<nat>)
    ensures Increasing(idx)
    ensures forall k :: 0 <= k < |idx| ==> idx[k] < |rows| && keep(rows[idx[k]])
    ensures forall i :: 0 <= i < |rows| && keep(rows[i]) ==> i in idx
  {
    if rows == [] then []
    else
      var n := |rows| - 1;
      var before := Positions(rows[..n], keep);
      assert forall i :: 0 <= i < n ==> rows[..n][i] == rows[i];
      before + (if keep(rows[n]) then [n] else [])
  }

  /** The rows of `rows` at the positions `idx`, in the order of `idx`. */
  function Pick(rows: seq<Row>, idx: seq<nat>): (picked: seq<Row>)
    requires forall k :: 0 <= k < |idx| ==> idx[k] < |rows|
  {
    seq(|idx|, k requires 0 <= k < |idx| => rows[idx[k]])
  }

  /** Masking keeps the accepted rows and only those, in their original
      order: the masked table is the rows at the accepted positions, taken
      in ascending order. With the contract of Positions this determines the
      masked table completely. */
  lemma {:induction false} WherePicksPositions(rows: seq<Row>, keep: Row -> bool)
    ensures Where(rows, keep) == Pick(rows, Positions(rows, keep))
  {
    if rows != [] {
      var n := |rows| - 1;
      var init := rows[..n];
      WherePicksPositions(init, keep);
      assert forall i :: 0 <= i < n ==> init[i] == rows[i];
    }
  }

  /** A mask that accepts every row leaves the table as it is. */
  lemma {:induction false} WhereAll(rows: seq<Row>, keep: Row -> bool)
    requires forall r :: r in rows ==> keep(r)
    ensures Where(rows, keep) == rows
  {
    if rows != [] {
      var n := |rows| - 1;
      assert rows == rows[..n] + [rows[n]];
      WhereAll(rows[..n], keep);
    }
  }

  /** A mask that accepts no row gives the empty table. */
  lemma WhereNone(rows: seq<Row>, keep: Row -> bool)
    requires forall r :: r in rows ==> !keep(r)
    ensures Where(rows, keep) == []
  {
  }

  /** The mask that holds where both `p` and `q` hold. */
  function And(p: Row -> bool, q: Row -> bool): Row -> bool {
    r => p(r) && q(r)
  }

  /** Masking a table extended by one row masks the table, then that row. */
  lemma WhereSnoc(rows: seq<Row>, last: Row, keep: Row -> bool)
    ensures Where(rows + [last], keep) == Where(rows, keep) + (if keep(last) then [last] else [])
  {
  }

  /** Masking twice is masking once with the conjunction. */
  lemma {:induction false} WhereWhere(rows: seq<Row>, p: Row -> bool, q: Row -> bool)
    ensures Where(Where(rows, p), q) == Where(rows, And(p, q))
  {
    if rows != [] {
      var n := |rows| - 1;
      var init, last := rows[..n], rows[n];
      assert rows == init + [last];
      WhereWhere(init, p, q);
      var w := Where(init, p);
      WhereSnoc(init, last, p);
      WhereSnoc(init, last, And(p, q));
      assert And(p, q)(last) == (p(last) && q(last));
      if p(last) {
        WhereSnoc(w, last, q);
        assert Where(rows, p) == w + [last];
      } else {
        assert Where(rows, p) == w;
      }
    }
  }

  /** Two masks that agree on every row of the table select the same rows. */
  lemma {:induction false} WhereCongruent(rows: seq<Row>, p: Row -> bool, q: Row -> bool)
    requires forall r :: r in rows ==> p(r) == q(r)
    ensures Where(rows, p) == Where(rows, q)
  {
    if rows != [] {
      var n := |rows| - 1;
      assert rows == rows[..n] + [rows[n]];
      WhereCongruent(rows[..n], p, q);
    }
  }

  /** The order in which two masks are applied does not matter. */
  lemma WhereCommutes(rows: seq<Row>, p: Row -> bool, q: Row -> bool)
    ensures Where(Where(rows, p), q) == Where(Where(rows, q), p)
  {
    WhereWhere(rows, p, q);
    WhereWhere(rows, q, p);
    WhereCongruent(rows, And(p, q), And(q, p));
  }

  /** Masking an already masked table with the same mask changes nothing. */
  lemma WhereIdempotent(rows: seq<Row>, keep: Row -> bool)
    ensures Where(Where(rows, keep), keep) == Where(rows, keep)
  {
    WhereAll(Where(rows, keep), keep);
  }

  predicate NoDuplicates(s: seq<string>) {
    forall i, j :: 0 <= i < j < |s| ==> s[i] != s[j]
  }

  /** `Series.unique()`: each distinct value once, in the order in which the
      values first appear. */
  function Unique(s: seq<string>): (u: seq<string>)
    ensures forall x :: x in u <==> x in s
    ensures NoDuplicates(u)
  {
    if s == [] then []
    else
      var init := s[..|s| - 1];
      var last := s[|s| - 1];
      assert s == init + [last];
      var u := Unique(init);
      if last in u then u else u + [last]
  }

  /** The values of Unique come in order of first appearance: whenever an
      occurrence of a later value is found in `s`, every earlier value has
      already occurred before it. */
  lemma {:induction false} UniqueInFirstAppearanceOrder(s: seq<string>)
    ensures forall i, j, b :: 0 <= i < j < |Unique(s)| && 0 <= b < |s| && s[b] == Unique(s)[j] ==>
              Unique(s)[i] in s[..b]
  {
    if s != [] {
      var n := |s| - 1;
      var init, last := s[..n], s[n];
      UniqueInFirstAppearanceOrder(init);
      var u', u := Unique(init), Unique(s);
      forall i, j, b | 0 <= i < j < |u| && 0 <= b < |s| && s[b] == u[j]
        ensures u[i] in s[..b]
      {
        assert u[i] == u'[i];
        if b < n {
          assert init[b] == s[b];
          assert init[..b] == s[..b];
          if j < |u'| {
            assert u[j] == u'[j];
          }
        } else {
          assert u'[i] in u';
          assert s[..b] == init;
        }
      }
    }
  }
}
