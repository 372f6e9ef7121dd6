/** The index fingerprint is a canonical form
    (crates/refyard-host/src/snapshots.rs, `index_fingerprint`). */
module IndexFingerprint {
  import opened Separators
  import opened Wrappers
  import Numerals
  import TextOrder

  datatype IndexEntry = IndexEntry(pathKey: string, originalPathKey: Option<string>, mode: string, oid: string, stage: nat)

  const NUL: char := '\0'
  const UNBORN := "(unborn)"

  function HeadText(head: Option<string>): string { if head.Some? then head.value else UNBORN }

  function OriginalText(entry: IndexEntry): string {
    if entry.originalPathKey.Some? then entry.originalPathKey.value else ""
  }

  function Row(entry: IndexEntry): string {
    entry.pathKey + ([':'] + (OriginalText(entry) + ([NUL] + (entry.mode + ([NUL] + (entry.oid + ([NUL] + Numerals.Decimal(entry.stage))))))))
  }

  function RowsOf(entries: seq<IndexEntry>): (rows: seq<string>)
    ensures |rows| == |entries| && forall i :: 0 <= i < |rows| ==> rows[i] == Row(entries[i])
  {
    if entries == [] then [] else [Row(entries[0])] + RowsOf(entries[1..])
  }

  function Joined(rows: seq<string>): string {
    if rows == [] then ""
    else if |rows| == 1 then rows[0]
    else rows[0] + (['\n'] + Joined(rows[1..]))
  }

  /** `index_fingerprint`. */
  function Fingerprint(head: Option<string>, entries: seq<IndexEntry>): string {
    HeadText(head) + (['\n'] + Joined(TextOrder.Sort(RowsOf(entries))))
  }

  // ---------------------------------------------------------------- what Git puts in

  predicate Clean(text: string) { NUL !in text && '\n' !in text }

  predicate CleanHead(head: Option<string>) { head.Some? ==> Clean(head.value) }

  /** Fields without the separators; path keys are hexadecimal, so they have no colon. */
  predicate CleanEntry(entry: IndexEntry) {
    Clean(entry.pathKey) && ':' !in entry.pathKey && Clean(OriginalText(entry)) && Clean(entry.mode) && Clean(entry.oid)
  }

  predicate CleanEntries(entries: seq<IndexEntry>) { forall i :: 0 <= i < |entries| ==> CleanEntry(entries[i]) }

  // ---------------------------------------------------------------- unique parsing

  /** What a row says: an absent original key and an empty one read the same. */
  function Normal(entry: IndexEntry): IndexEntry { entry.(originalPathKey := Some(OriginalText(entry))) }

  lemma RowInjective(a: IndexEntry, b: IndexEntry)
    requires CleanEntry(a) && CleanEntry(b)
    ensures Row(a) == Row(b) <==> Normal(a) == Normal(b)
  {
    var da, db := Numerals.Decimal(a.stage), Numerals.Decimal(b.stage);
    SplitAtFirst(a.pathKey, OriginalText(a) + ([NUL] + (a.mode + ([NUL] + (a.oid + ([NUL] + da))))),
                 b.pathKey, OriginalText(b) + ([NUL] + (b.mode + ([NUL] + (b.oid + ([NUL] + db))))), ':');
    SplitAtFirst(OriginalText(a), a.mode + ([NUL] + (a.oid + ([NUL] + da))),
                 OriginalText(b), b.mode + ([NUL] + (b.oid + ([NUL] + db))), NUL);
    SplitAtFirst(a.mode, a.oid + ([NUL] + da), b.mode, b.oid + ([NUL] + db), NUL);
    SplitAtFirst(a.oid, da, b.oid, db, NUL);
    Numerals.NumeralInjective(a.stage, b.stage, Numerals.Ten);
  }

  lemma RowIsOneLine(entry: IndexEntry)
    requires CleanEntry(entry)
    ensures '\n' !in Row(entry) && Row(entry) != ""
  {
    var digits := Numerals.Decimal(entry.stage);
    assert '\n' !in digits;
  }

  predicate Lines(rows: seq<string>) { forall i :: 0 <= i < |rows| ==> rows[i] != "" && '\n' !in rows[i] }

  lemma {:induction false} JoinedInjective(a: seq<string>, b: seq<string>)
    requires Lines(a) && Lines(b)
    ensures Joined(a) == Joined(b) <==> a == b
    decreases |a|
  {
    if |a| > 1 && |b| > 1 {
      SplitAtFirst(a[0], Joined(a[1..]), b[0], Joined(b[1..]), '\n');
      JoinedInjective(a[1..], b[1..]);
      assert a == [a[0]] + a[1..] && b == [b[0]] + b[1..];
    } else {
      JoinedShape(a);
      JoinedShape(b);
    }
  }

  lemma JoinedShape(rows: seq<string>)
    requires Lines(rows)
    ensures Joined(rows) == "" <==> rows == []
    ensures '\n' in Joined(rows) <==> |rows| > 1
    ensures |rows| == 1 ==> [Joined(rows)] == rows
  {
    if |rows| > 1 { assert Joined(rows)[|rows[0]|] == '\n'; }
  }

  // ---------------------------------------------------------------- counting entries

  function Normals(entries: seq<IndexEntry>): (normals: seq<IndexEntry>)
    ensures |normals| == |entries| && forall i :: 0 <= i < |normals| ==> normals[i] == Normal(entries[i])
  {
    if entries == [] then [] else [Normal(entries[0])] + Normals(entries[1..])
  }

  lemma {:induction false} RowsCount(entries: seq<IndexEntry>, entry: IndexEntry)
    requires CleanEntries(entries) && CleanEntry(entry)
    ensures multiset(RowsOf(entries))[Row(entry)] == multiset(Normals(entries))[Normal(entry)]
    decreases |entries|
  {
    if entries != [] {
      RowsCount(entries[1..], entry);
      RowInjective(entries[0], entry);
      assert multiset(RowsOf(entries)) == multiset{Row(entries[0])} + multiset(RowsOf(entries[1..]));
      assert multiset(Normals(entries)) == multiset{Normal(entries[0])} + multiset(Normals(entries[1..]));
    }
  }

  lemma SameRowsSameNormals(a: seq<IndexEntry>, b: seq<IndexEntry>)
    requires CleanEntries(a) && CleanEntries(b) && multiset(RowsOf(a)) == multiset(RowsOf(b))
    ensures multiset(Normals(a)) <= multiset(Normals(b))
  {
    hide Row, Normal, CleanEntry, RowsOf, Normals;
    forall n ensures multiset(Normals(a))[n] <= multiset(Normals(b))[n] {
      if i :| 0 <= i < |a| && Normals(a)[i] == n {
        RowsCount(a, a[i]);
        RowsCount(b, a[i]);
      } else {
        NotListed(Normals(a), n);
      }
    }
  }

  lemma SameNormalsSameRows(a: seq<IndexEntry>, b: seq<IndexEntry>)
    requires CleanEntries(a) && CleanEntries(b) && multiset(Normals(a)) == multiset(Normals(b))
    ensures multiset(RowsOf(a)) <= multiset(RowsOf(b))
  {
    hide Row, Normal, CleanEntry, RowsOf, Normals;
    forall row ensures multiset(RowsOf(a))[row] <= multiset(RowsOf(b))[row] {
      if i :| 0 <= i < |a| && RowsOf(a)[i] == row {
        RowsCount(a, a[i]);
        RowsCount(b, a[i]);
      } else {
        NotListed(RowsOf(a), row);
      }
    }
  }

  lemma NotListed<T>(listing: seq<T>, x: T)
    requires forall i :: 0 <= i < |listing| ==> listing[i] != x
    ensures multiset(listing)[x] == 0
  {
    assert x !in listing;
  }

  lemma SameRowsSameEntries(a: seq<IndexEntry>, b: seq<IndexEntry>)
    requires CleanEntries(a) && CleanEntries(b)
    ensures multiset(RowsOf(a)) == multiset(RowsOf(b)) <==> multiset(Normals(a)) == multiset(Normals(b))
  {
    hide CleanEntry, Row, Normal, RowsOf, Normals;
    if multiset(RowsOf(a)) == multiset(RowsOf(b)) {
      SameRowsSameNormals(a, b);
      SameRowsSameNormals(b, a);
    }
    if multiset(Normals(a)) == multiset(Normals(b)) {
      SameNormalsSameRows(a, b);
      SameNormalsSameRows(b, a);
    }
  }

  // ---------------------------------------------------------------- the theorem

  lemma SortedRowsAreLines(entries: seq<IndexEntry>)
    requires CleanEntries(entries)
    ensures Lines(TextOrder.Sort(RowsOf(entries)))
  {
    var rows := TextOrder.Sort(RowsOf(entries));
    TextOrder.SortSorts(RowsOf(entries));
    forall i | 0 <= i < |rows| ensures rows[i] != "" && '\n' !in rows[i] {
      assert rows[i] in multiset(rows);
      var j :| 0 <= j < |entries| && RowsOf(entries)[j] == rows[i];
      RowIsOneLine(entries[j]);
    }
  }

  /** Two fingerprints are equal exactly when the head text and the multiset of entries
      are, reading an absent original key as an empty one. */
  lemma FingerprintIsCanonical(h: Option<string>, a: seq<IndexEntry>, k: Option<string>, b: seq<IndexEntry>)
    requires CleanHead(h) && CleanHead(k) && CleanEntries(a) && CleanEntries(b)
    ensures Fingerprint(h, a) == Fingerprint(k, b)
            <==> HeadText(h) == HeadText(k) && multiset(Normals(a)) == multiset(Normals(b))
  {
    SortedRowsAreLines(a);
    SortedRowsAreLines(b);
    var ra, rb := TextOrder.Sort(RowsOf(a)), TextOrder.Sort(RowsOf(b));
    SplitAtFirst(HeadText(h), Joined(ra), HeadText(k), Joined(rb), '\n');
    JoinedInjective(ra, rb);
    TextOrder.SortIsCanonical(RowsOf(a), RowsOf(b));
    SameRowsSameEntries(a, b);
  }

  /** HEAD is an object name or unborn, and a rename's original key is not empty. */
  predicate Recorded(head: Option<string>, entries: seq<IndexEntry>) {
    && CleanHead(head) && head != Some(UNBORN) && CleanEntries(entries)
    && forall i :: 0 <= i < |entries| ==> NoEmptyOriginal(entries[i])
  }

  predicate NoEmptyOriginal(entry: IndexEntry) { entry.originalPathKey != Some("") }

  lemma {:induction false} NormalsCount(entries: seq<IndexEntry>, entry: IndexEntry)
    requires (forall i :: 0 <= i < |entries| ==> NoEmptyOriginal(entries[i])) && NoEmptyOriginal(entry)
    ensures multiset(Normals(entries))[Normal(entry)] == multiset(entries)[entry]
    decreases |entries|
  {
    if entries != [] {
      NormalsCount(entries[1..], entry);
      NormalInjective(entries[0], entry);
      hide Normal, NoEmptyOriginal;
      assert entries == [entries[0]] + entries[1..];
      assert multiset(Normals(entries)) == multiset{Normal(entries[0])} + multiset(Normals(entries[1..]));
    }
  }

  lemma NormalInjective(a: IndexEntry, b: IndexEntry)
    requires NoEmptyOriginal(a) && NoEmptyOriginal(b)
    ensures Normal(a) == Normal(b) <==> a == b
  {}

  lemma SameNormalsContained(a: seq<IndexEntry>, b: seq<IndexEntry>)
    requires forall i :: 0 <= i < |a| ==> NoEmptyOriginal(a[i])
    requires forall i :: 0 <= i < |b| ==> NoEmptyOriginal(b[i])
    requires multiset(Normals(a)) == multiset(Normals(b))
    ensures multiset(a) <= multiset(b)
  {
    hide Normal, NoEmptyOriginal, Normals;
    forall e ensures multiset(a)[e] <= multiset(b)[e] {
      if e in multiset(a) {
        NormalsCount(a, e);
        NormalsCount(b, e);
      }
    }
  }

  lemma SameEntriesContained(a: seq<IndexEntry>, b: seq<IndexEntry>)
    requires forall i :: 0 <= i < |a| ==> NoEmptyOriginal(a[i])
    requires forall i :: 0 <= i < |b| ==> NoEmptyOriginal(b[i])
    requires multiset(a) == multiset(b)
    ensures multiset(Normals(a)) <= multiset(Normals(b))
  {
    hide Normal, NoEmptyOriginal, Normals;
    forall n ensures multiset(Normals(a))[n] <= multiset(Normals(b))[n] {
      if i :| 0 <= i < |a| && Normals(a)[i] == n {
        NormalsCount(a, a[i]);
        NormalsCount(b, a[i]);
      } else {
        NotListed(Normals(a), n);
      }
    }
  }

  lemma SameNormalsSameEntries(a: seq<IndexEntry>, b: seq<IndexEntry>)
    requires forall i :: 0 <= i < |a| ==> NoEmptyOriginal(a[i])
    requires forall i :: 0 <= i < |b| ==> NoEmptyOriginal(b[i])
    ensures multiset(Normals(a)) == multiset(Normals(b)) <==> multiset(a) == multiset(b)
  {
    hide NoEmptyOriginal, Normals;
    if multiset(Normals(a)) == multiset(Normals(b)) {
      SameNormalsContained(a, b);
      SameNormalsContained(b, a);
    }
    if multiset(a) == multiset(b) {
      SameEntriesContained(a, b);
      SameEntriesContained(b, a);
    }
  }

  /** For what Git reports, the fingerprint stands for HEAD and the index themselves. */
  lemma FingerprintStandsForTheIndex(h: Option<string>, a: seq<IndexEntry>, k: Option<string>, b: seq<IndexEntry>)
    requires Recorded(h, a) && Recorded(k, b)
    ensures Fingerprint(h, a) == Fingerprint(k, b) <==> h == k && multiset(a) == multiset(b)
  {
    FingerprintIsCanonical(h, a, k, b);
    SameNormalsSameEntries(a, b);
  }

  /** Outside that, it does not: a HEAD object name spelled like the unborn marker would read
      as unborn. */
  lemma UnbornIsAmbiguous(entries: seq<IndexEntry>)
    ensures Fingerprint(None, entries) == Fingerprint(Some(UNBORN), entries)
  {}

  /** How it is spelled: HEAD or the marker on the first line, then one line per entry. */
  lemma FingerprintSpelled(head: string, entry: IndexEntry, original: string)
    requires entry.originalPathKey == Some(original)
    ensures Fingerprint(None, []) == "(unborn)\n" && Fingerprint(Some(head), []) == head + "\n"
    ensures Fingerprint(Some(head), [entry])
            == head + "\n" + entry.pathKey + ":" + original + "\0" + entry.mode + "\0" + entry.oid + "\0"
               + Numerals.Decimal(entry.stage)
  {
    assert "(unborn)" + ("\n" + "") == "(unborn)\n";
    assert head + ("\n" + "") == head + "\n";
    assert RowsOf([entry]) == [Row(entry)] && TextOrder.Sort([Row(entry)]) == [Row(entry)] by { OneSorted(Row(entry)); }
    var digits := Numerals.Decimal(entry.stage);
    SpelledRow(head, entry, original, digits);
  }

  lemma OneSorted(row: string)
    ensures TextOrder.Sort([row]) == [row]
  {
    assert [row][1..] == [] && [row] + [] == [row];
  }

  lemma SpelledRow(head: string, entry: IndexEntry, original: string, digits: string)
    requires entry.originalPathKey == Some(original) && digits == Numerals.Decimal(entry.stage)
    ensures head + (['\n'] + Row(entry))
            == head + "\n" + entry.pathKey + ":" + original + "\0" + entry.mode + "\0" + entry.oid + "\0" + digits
  {
    var a := head + "\n" + entry.pathKey + ":" + original + "\0" + entry.mode + "\0" + entry.oid;
    Regroup(head + "\n" + entry.pathKey + ":" + original + "\0" + entry.mode, "\0", entry.oid, "\0" + digits);
    Regroup(head + "\n" + entry.pathKey + ":" + original, "\0", entry.mode, "\0" + (entry.oid + ("\0" + digits)));
    Regroup(head + "\n" + entry.pathKey, ":", original, "\0" + (entry.mode + ("\0" + (entry.oid + ("\0" + digits)))));
    Regroup(head, "\n", entry.pathKey, ":" + (original + ("\0" + (entry.mode + ("\0" + (entry.oid + ("\0" + digits)))))));
    assert a + "\0" + digits == a + ("\0" + digits);
  }

  lemma Regroup(front: string, separator: string, field: string, rest: string)
    ensures front + separator + field + rest == front + (separator + (field + rest))
  {}
}
