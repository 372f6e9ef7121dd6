/** Text ordered character by character, and the sort built on it. */
module TextOrder {
  /** `a` is not after `b`; a prefix comes first. */
  predicate AtMost(a: string, b: string) {
    a == "" || (b != "" && (a[0] < b[0] || (a[0] == b[0] && AtMost(a[1..], b[1..]))))
  }

  predicate Before(a: string, b: string) { AtMost(a, b) && a != b }

  lemma {:induction false} AtMostTotal(a: string, b: string)
    ensures AtMost(a, b) || AtMost(b, a)
    decreases |a|
  {
    if a != "" && b != "" { AtMostTotal(a[1..], b[1..]); }
  }

  lemma {:induction false} AtMostAntisymmetric(a: string, b: string)
    requires AtMost(a, b) && AtMost(b, a)
    ensures a == b
    decreases |a|
  {
    if a != "" {
      AtMostAntisymmetric(a[1..], b[1..]);
      assert a == [a[0]] + a[1..] && b == [b[0]] + b[1..];
    }
  }

  lemma {:induction false} AtMostTransitive(a: string, b: string, c: string)
    requires AtMost(a, b) && AtMost(b, c)
    ensures AtMost(a, c)
    decreases |a|
  {
    if a != "" && a[0] == b[0] == c[0] { AtMostTransitive(a[1..], b[1..], c[1..]); }
  }

  /** Text of equal length compares front part first. */
  lemma {:induction false} BeforeConcat(a: string, b: string, c: string, d: string)
    requires |a| == |c|
    ensures Before(a + b, c + d) <==> Before(a, c) || (a == c && Before(b, d))
    decreases |a|
  {
    if a == "" {
      assert a + b == b && c + d == d;
    } else {
      assert (a + b)[1..] == a[1..] + b && (c + d)[1..] == c[1..] + d;
      assert a == c <==> a[0] == c[0] && a[1..] == c[1..] by {
        assert a == [a[0]] + a[1..] && c == [c[0]] + c[1..];
      }
      BeforeConcat(a[1..], b, c[1..], d);
      BeforeHead(a + b, c + d);
      BeforeHead(a, c);
    }
  }

  lemma BeforeHead(a: string, b: string)
    requires a != "" && b != ""
    ensures Before(a, b) <==> a[0] < b[0] || (a[0] == b[0] && Before(a[1..], b[1..]))
  {
    assert a == [a[0]] + a[1..] && b == [b[0]] + b[1..];
  }

  // ---------------------------------------------------------------- sorting

  predicate Sorted(rows: seq<string>) {
    forall i, j :: 0 <= i < j < |rows| ==> AtMost(rows[i], rows[j])
  }

  function Insert(row: string, rows: seq<string>): seq<string> {
    if rows == [] || AtMost(row, rows[0]) then [row] + rows
    else [rows[0]] + Insert(row, rows[1..])
  }

  function Sort(rows: seq<string>): seq<string> {
    if rows == [] then [] else Insert(rows[0], Sort(rows[1..]))
  }

  lemma SortedCons(row: string, rows: seq<string>)
    requires Sorted(rows) && forall r :: r in rows ==> AtMost(row, r)
    ensures Sorted([row] + rows)
  {}

  lemma {:induction false} InsertSorts(row: string, rows: seq<string>)
    ensures multiset(Insert(row, rows)) == multiset(rows) + multiset{row}
    ensures Sorted(rows) ==> Sorted(Insert(row, rows))
    decreases |rows|
  {
    if rows == [] || AtMost(row, rows[0]) {
      if Sorted(rows) {
        forall r | r in rows ensures AtMost(row, r) {
          var i :| 0 <= i < |rows| && rows[i] == r;
          if i > 0 { AtMostTransitive(row, rows[0], r); }
        }
        SortedCons(row, rows);
      }
    } else {
      InsertSorts(row, rows[1..]);
      assert rows == [rows[0]] + rows[1..];
      if Sorted(rows) {
        AtMostTotal(row, rows[0]);
        InsertedMembers(row, rows);
        SortedCons(rows[0], Insert(row, rows[1..]));
      }
    }
  }

  lemma InsertedMembers(row: string, rows: seq<string>)
    requires rows != [] && Sorted(rows) && AtMost(rows[0], row)
    requires multiset(Insert(row, rows[1..])) == multiset(rows[1..]) + multiset{row}
    ensures forall r :: r in Insert(row, rows[1..]) ==> AtMost(rows[0], r)
  {
    forall r | r in Insert(row, rows[1..]) ensures AtMost(rows[0], r) {
      assert r in multiset(Insert(row, rows[1..]));
    }
  }

  lemma {:induction false} SortSorts(rows: seq<string>)
    ensures Sorted(Sort(rows)) && multiset(Sort(rows)) == multiset(rows)
    decreases |rows|
  {
    if rows != [] {
      SortSorts(rows[1..]);
      InsertSorts(rows[0], Sort(rows[1..]));
      assert rows == [rows[0]] + rows[1..];
    }
  }

  /** A multiset of texts has one sorted listing. */
  lemma {:induction false} SortedListingIsUnique(a: seq<string>, b: seq<string>)
    requires Sorted(a) && Sorted(b) && multiset(a) == multiset(b)
    ensures a == b
    decreases |a|
  {
    hide AtMost;
    assert |a| == |multiset(a)| == |multiset(b)| == |b|;
    if a != [] {
      assert a[0] in multiset(b) && b[0] in multiset(a);
      FirstIsLeast(a, b[0]);
      FirstIsLeast(b, a[0]);
      AtMostAntisymmetric(a[0], b[0]);
      TailMultiset(a);
      TailMultiset(b);
      SortedListingIsUnique(a[1..], b[1..]);
      assert a == [a[0]] + a[1..] && b == [b[0]] + b[1..];
    }
  }

  lemma TailMultiset(rows: seq<string>)
    requires rows != []
    ensures multiset(rows[1..]) == multiset(rows) - multiset{rows[0]}
  {
    assert rows == [rows[0]] + rows[1..];
  }

  lemma FirstIsLeast(rows: seq<string>, row: string)
    requires Sorted(rows) && row in rows
    ensures AtMost(rows[0], row)
  {
    if row == rows[0] { AtMostTotal(row, row); }
  }

  /** Two listings sort to the same rows exactly when they hold the same rows equally often. */
  lemma SortIsCanonical(a: seq<string>, b: seq<string>)
    ensures Sort(a) == Sort(b) <==> multiset(a) == multiset(b)
  {
    SortSorts(a);
    SortSorts(b);
    if multiset(a) == multiset(b) { SortedListingIsUnique(Sort(a), Sort(b)); }
  }
}
