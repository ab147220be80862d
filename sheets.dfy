/**
 * `GoogleSheetReader`: the rows of the sheet and the duplicate check run on them
 * before anything is sent. Fetching and parsing the CSV export is not part of this
 * model: the rows arrive as a sequence, possibly empty.
 */
module Sheets {
  import opened Text

  /** One spreadsheet line: column name to cell text. */
  type Row = map<string, string>

  /** `row.get(field, '')`. */
  function Get(row: Row, field: string): string {
    if field in row then row[field] else ""
  }

  /** The address as the duplicate check compares it: `row.get('email', '').strip().lower()`. */
  function NormalizedEmail(row: Row): string {
    Lower(Trim(Get(row, "email")))
  }

  /** The normalised address of every row, in row order. */
  function NormalizedEmails(data: seq<Row>): (es: seq<string>)
    ensures |es| == |data|
  {
    if data == [] then [] else NormalizedEmails(data[..|data| - 1]) + [NormalizedEmail(data[|data| - 1])]
  }

  /** Position `i` of `NormalizedEmails(data)` is the normalised address of row `i`. */
  lemma {:induction false} NormalizedEmailsAt(data: seq<Row>, i: nat)
    requires i < |data|
    ensures NormalizedEmails(data)[i] == NormalizedEmail(data[i])
  {
    if i < |data| - 1 {
      NormalizedEmailsAt(data[..|data| - 1], i);
    }
  }

  /** Normalising two stretches of rows one after the other is normalising them together. */
  lemma {:induction false} NormalizedEmailsAppend(a: seq<Row>, b: seq<Row>)
    ensures NormalizedEmails(a + b) == NormalizedEmails(a) + NormalizedEmails(b)
  {
    if b == [] {
      assert a + b == a;
    } else {
      assert (a + b)[..|a + b| - 1] == a + b[..|b| - 1];
      NormalizedEmailsAppend(a, b[..|b| - 1]);
    }
  }

  /** The number of times `e` occurs in `es`. */
  function Occurrences(es: seq<string>, e: string): nat {
    if es == [] then 0
    else Occurrences(es[..|es| - 1], e) + (if es[|es| - 1] == e then 1 else 0)
  }

  /** The number of rows whose normalised address is `e`. */
  function Count(data: seq<Row>, e: string): nat {
    Occurrences(NormalizedEmails(data), e)
  }

  /** The sets the duplicate check keeps after scanning the addresses `prefix`. */
  ghost predicate Scanned(emails: set<string>, duplicates: set<string>, prefix: seq<string>) {
    && (forall e :: e in emails <==> e != "" && Occurrences(prefix, e) >= 1)
    && (forall e :: e in duplicates <==> e != "" && Occurrences(prefix, e) >= 2)
  }

  /** One step of the scan: the next address goes into `duplicates` if seen before, else into `emails`. */
  lemma ScanStep(emails: set<string>, duplicates: set<string>, es: seq<string>, i: nat, x: string)
    requires i < |es| && es[i] == x
    requires Scanned(emails, duplicates, es[..i])
    ensures x != "" && x in emails ==> Scanned(emails, duplicates + {x}, es[..i + 1])
    ensures x != "" && x !in emails ==> Scanned(emails + {x}, duplicates, es[..i + 1])
    ensures x == "" ==> Scanned(emails, duplicates, es[..i + 1])
  {
    assert es[..i + 1][..i] == es[..i];
  }

  /**
   * `find_duplicate_emails`: one pass over the rows with a set of addresses seen
   * and a set of duplicates. The result is exactly the non-empty normalised
   * addresses that occur in two or more rows.
   */
  method FindDuplicateEmails(data: seq<Row>) returns (duplicates: set<string>)
    ensures forall e :: e in duplicates <==> e != "" && Count(data, e) >= 2
  {
    ghost var es := NormalizedEmails(data);
    var emails: set<string> := {};
    duplicates := {};
    var i := 0;
    while i < |data|
      invariant 0 <= i <= |data|
      invariant Scanned(emails, duplicates, es[..i])
    {
      var email := Lower(Trim(Get(data[i], "email")));
      NormalizedEmailsAt(data, i);
      ScanStep(emails, duplicates, es, i, email);
      if email != "" {
        if email in emails {
          duplicates := duplicates + {email};
        } else {
          emails := emails + {email};
        }
      }
      i := i + 1;
    }
    assert es[..|data|] == es;
  }

  /** Occurrences over two consecutive stretches add up. */
  lemma {:induction false} OccurrencesAppend(a: seq<string>, b: seq<string>, e: string)
    ensures Occurrences(a + b, e) == Occurrences(a, e) + Occurrences(b, e)
  {
    if b != [] {
      assert (a + b)[..|a + b| - 1] == a + b[..|b| - 1];
      OccurrencesAppend(a, b[..|b| - 1], e);
    } else {
      assert a + b == a;
    }
  }

  /** `e` occurs at least once exactly when some position holds it. */
  lemma {:induction false} OccurrencesPositive(es: seq<string>, e: string)
    ensures Occurrences(es, e) >= 1 <==> e in es
  {
    if es != [] {
      var init := es[..|es| - 1];
      OccurrencesPositive(init, e);
      assert es == init + [es[|es| - 1]];
    }
  }

  /** `e` sits at two different positions of `es`. */
  predicate TwiceIn(es: seq<string>, e: string) {
    exists i, j :: 0 <= i < j < |es| && es[i] == e && es[j] == e
  }

  /** `e` occurs twice or more exactly when two different positions hold it. */
  lemma {:induction false} OccurrencesAtLeastTwo(es: seq<string>, e: string)
    ensures Occurrences(es, e) >= 2 <==> TwiceIn(es, e)
  {
    if es != [] {
      var n := |es| - 1;
      var init := es[..n];
      OccurrencesAtLeastTwo(init, e);
      OccurrencesPositive(init, e);
      if TwiceIn(init, e) {
        var i, j :| 0 <= i < j < |init| && init[i] == e && init[j] == e;
        assert es[i] == e && es[j] == e;
      }
      if e in init && es[n] == e {
        var i :| 0 <= i < |init| && init[i] == e;
        assert es[i] == e;
      }
      if TwiceIn(es, e) {
        var i, j :| 0 <= i < j < |es| && es[i] == e && es[j] == e;
        assert init[i] == e;
        if j < n {
          assert init[j] == e;
        }
      }
    }
  }

  /** No non-empty string occurs at two positions of `es`. */
  predicate NonEmptyDistinct(es: seq<string>) {
    forall i, j :: 0 <= i < j < |es| && es[i] != "" ==> es[i] != es[j]
  }

  /** No two rows share a non-empty normalised address. */
  predicate DistinctEmails(data: seq<Row>) {
    NonEmptyDistinct(NormalizedEmails(data))
  }

  /** The duplicate set is empty exactly when the rows' non-empty normalised addresses are pairwise distinct. */
  lemma NoDuplicatesIffDistinct(data: seq<Row>)
    ensures (forall e :: e != "" ==> Count(data, e) < 2) <==> DistinctEmails(data)
  {
    var es := NormalizedEmails(data);
    if NonEmptyDistinct(es) {
      forall e | e != "" ensures Count(data, e) < 2 {
        OccurrencesAtLeastTwo(es, e);
      }
    } else {
      DuplicateWitness(data);
    }
  }

  /** A repeated non-empty normalised address is counted twice. */
  lemma DuplicateWitness(data: seq<Row>)
    requires !DistinctEmails(data)
    ensures exists e :: e != "" && Count(data, e) >= 2
  {
    var es := NormalizedEmails(data);
    var i, j :| 0 <= i < j < |es| && es[i] != "" && es[i] == es[j];
    OccurrencesAtLeastTwo(es, es[i]);
    assert Count(data, es[i]) >= 2;
  }

  /**
   * A row with no `email` column, or whose address is whitespace only, plays no part
   * in the check: wherever it stands, removing it changes no non-empty address's count.
   */
  lemma BlankEmailRowIgnored(before: seq<Row>, row: Row, after: seq<Row>, e: string)
    requires AllSpace(Get(row, "email"))
    requires e != ""
    ensures Count(before + [row] + after, e) == Count(before + after, e)
  {
    TrimIsSlice(Get(row, "email"));
    assert NormalizedEmail(row) == "";
    NormalizedEmailsAppend(before + [row], after);
    NormalizedEmailsAppend(before, [row]);
    NormalizedEmailsAppend(before, after);
    var es1, es2 := NormalizedEmails(before), NormalizedEmails(after);
    assert NormalizedEmails([row]) == [""] by {
      assert [row][..0] == [];
    }
    OccurrencesAppend(es1 + [""], es2, e);
    OccurrencesAppend(es1, [""], e);
    OccurrencesAppend(es1, es2, e);
    assert [""][..0] == [];
  }

  /** `"A "` and `"a"` normalise to the same address. */
  lemma CaseAndPaddingNormalize()
    ensures NormalizedEmail(map["email" := "a"]) == "a"
    ensures NormalizedEmail(map["email" := "A "]) == "a"
  {
    assert Trim("a") == "a" by { TrimUntrimmed("a"); }
    assert ContentStart("A ") == 0 && ContentEnd("A ") == 1;
    assert Trim("A ") == "A";
    assert Lower("A") == "a" by { assert LowerChar('A') == 'a'; }
    assert Lower("a") == "a" by { assert LowerChar('a') == 'a'; }
  }

  /** The same address in different case and with surrounding spaces is one duplicate. */
  lemma CaseAndPaddingCollide()
    ensures forall e :: e != "" && Count([map["email" := "a"], map["email" := "A "]], e) >= 2 <==> e == "a"
  {
    var data := [map["email" := "a"], map["email" := "A "]];
    CaseAndPaddingNormalize();
    var es := NormalizedEmails(data);
    NormalizedEmailsAt(data, 0);
    NormalizedEmailsAt(data, 1);
    assert es[0] == "a" && es[1] == "a";
    forall e ensures Count(data, e) == if e == "a" then 2 else 0 {
      assert Occurrences(es[..1], e) == Occurrences(es[..1][..0], e) + (if es[0] == e then 1 else 0);
      assert Occurrences(es, e) == Occurrences(es[..1], e) + (if es[1] == e then 1 else 0);
    }
  }
}
