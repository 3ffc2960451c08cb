/** The email extractor of app.py: the upload-name check, the tokenising of the
    manual-entry field and the scan of an uploaded CSV file. */
module EmailExtractor {
  import opened Text
  import opened Seqs

  datatype Option<T> = None | Some(value: T)

  // ---------------------------------------------------------------------
  // allowed_file

  /** The position of the last `c` in `s`, as str.rfind would report it. */
  function LastIndexOf(s: string, c: char): (r: Option<nat>)
    ensures r.None? <==> c !in s
    ensures r.Some? ==> r.value < |s| && s[r.value] == c && c !in s[r.value + 1..]
    decreases |s|
  {
    if s == [] then None
    else if s[|s| - 1] == c then Some(|s| - 1)
    else
      var r := LastIndexOf(s[..|s| - 1], c);
      assert s == s[..|s| - 1] + [s[|s| - 1]];
      assert r.Some? ==> s[r.value + 1..] == s[..|s| - 1][r.value + 1..] + [s[|s| - 1]];
      r
  }

  /** filename.rsplit('.', 1)[1] when the name has a dot: the text after the
      last one. */
  function Extension(filename: string): Option<string> {
    match LastIndexOf(filename, '.')
    case None => None
    case Some(i) => Some(filename[i + 1..])
  }

  /** allowed_file: the name has a dot and what follows the last dot is "csv"
      in any letter case. */
  function AllowedFile(filename: string): bool {
    match Extension(filename)
    case None => false
    case Some(ext) => Lower(ext) == "csv"
  }

  /** An independent reading of allowed_file: the name ends in a dot followed
      by three letters that lower-case to "csv". */
  lemma AllowedFileEndsInCsv(filename: string)
    ensures AllowedFile(filename) <==>
      |filename| >= 4 && filename[|filename| - 4] == '.' && Lower(filename[|filename| - 3..]) == "csv"
  {
    var n := |filename|;
    var r := LastIndexOf(filename, '.');
    if r.Some? {
      var i := r.value;
      var ext := filename[i + 1..];
      assert forall k :: i < k < n ==> filename[k] == ext[k - i - 1] != '.';
    }
    if n >= 4 && filename[n - 4] == '.' && Lower(filename[n - 3..]) == "csv" {
      assert '.' in filename;
      var i := r.value;
      assert forall k :: n - 3 <= k < n ==> filename[k] != '.' by {
        forall k | n - 3 <= k < n ensures filename[k] != '.' {
          assert LowerChar(filename[k]) == Lower(filename[n - 3..])[k - n + 3];
        }
      }
      assert i == n - 4;
    }
  }

  /** A plain ".csv" name is allowed. */
  lemma AllowedFileAcceptsCsv()
    ensures AllowedFile("volunteers.csv")
  {
    AllowedFileEndsInCsv("volunteers.csv");
    assert "volunteers.csv"[11..] == "csv";
  }

  /** Only the text after the last dot counts, in any letter case. */
  lemma AllowedFileAcceptsUpperCase()
    ensures AllowedFile("a.b.CSV")
  {
    AllowedFileEndsInCsv("a.b.CSV");
    assert "a.b.CSV"[4..] == "CSV";
    assert Lower("CSV") == "csv";
  }

  lemma AllowedFileRejects()
    ensures !AllowedFile("csv")
    ensures !AllowedFile("x.txt")
    ensures !AllowedFile("list.csv.txt")
  {
    AllowedFileEndsInCsv("csv");
    AllowedFileEndsInCsv("x.txt");
    assert Lower("x.txt"[2..])[0] == 't';
    AllowedFileEndsInCsv("list.csv.txt");
    assert Lower("list.csv.txt"[9..])[0] == 't';
  }

  // ---------------------------------------------------------------------
  // Manual entry

  /** One piece of the manual field: stripped, and kept when it is non-empty
      and holds an '@'. */
  function KeepEmail(piece: string): seq<string> {
    var e := Strip(piece);
    if e != [] && '@' in e then [e] else []
  }

  /** The kept pieces, in order. Every result is a non-empty string holding
      an '@'. */
  function KeepEmails(pieces: seq<string>): (emails: seq<string>)
    decreases |pieces|
  {
    if pieces == [] then []
    else KeepEmails(pieces[..|pieces| - 1]) + KeepEmail(pieces[|pieces| - 1])
  }

  /** Every kept token is a non-empty, trimmed string holding an '@'. */
  lemma {:induction false} KeepEmailsWellFormed(pieces: seq<string>)
    ensures forall e :: e in KeepEmails(pieces) ==> e != [] && Trimmed(e) && '@' in e
    decreases |pieces|
  {
    if pieces != [] {
      KeepEmailsWellFormed(pieces[..|pieces| - 1]);
      StripIsTrimmed(pieces[|pieces| - 1]);
    }
  }

  lemma KeepEmailsSnoc(p: seq<string>, x: string)
    ensures KeepEmails(p + [x]) == KeepEmails(p) + KeepEmail(x)
  {
    assert (p + [x])[..|p|] == p;
  }

  lemma {:induction false} KeepEmailsConcat(a: seq<string>, b: seq<string>)
    ensures KeepEmails(a + b) == KeepEmails(a) + KeepEmails(b)
    decreases |b|
  {
    if b == [] {
      assert a + b == a;
    } else {
      var b', x := b[..|b| - 1], b[|b| - 1];
      assert a + b == (a + b') + [x] && b == b' + [x];
      KeepEmailsConcat(a, b');
      KeepEmailsSnoc(a + b', x);
      KeepEmailsSnoc(b', x);
    }
  }

  /** The tokens of the manual-entry field (app.py lines 89-95): the field is
      stripped; if anything is left, commas become newlines, the text is split
      on newlines and the kept pieces are collected. No deduplication here. */
  function ManualTokens(field: string): (emails: seq<string>)
  {
    var t := Strip(field);
    if t == [] then [] else KeepEmails(Split(ReplaceChar(t, ',', '\n'), {'\n'}))
  }

  lemma ManualTokensWellFormed(field: string)
    ensures forall e :: e in ManualTokens(field) ==> e != [] && Trimmed(e) && '@' in e
  {
    var t := Strip(field);
    if t != [] {
      KeepEmailsWellFormed(Split(ReplaceChar(t, ',', '\n'), {'\n'}));
    }
  }

  /** The loop of app.py lines 92-95. */
  method ParseManualEmails(field: string) returns (emails: seq<string>)
    ensures emails == ManualTokens(field)
  {
    emails := [];
    var t := Strip(field);
    if t != [] {
      var pieces := Split(ReplaceChar(t, ',', '\n'), {'\n'});
      for i := 0 to |pieces|
        invariant emails == KeepEmails(pieces[..i])
      {
        assert pieces[..i + 1][..i] == pieces[..i];
        var email := Strip(pieces[i]);
        if email != [] && '@' in email {
          emails := emails + [email];
        }
      }
      assert pieces[..|pieces|] == pieces;
    }
  }

  /** The separators of the manual field. */
  const ManualSeparators: set<char> := {',', '\n'}

  lemma KeepEmailsCons(x: string, p: seq<string>)
    ensures KeepEmails([x] + p) == KeepEmail(x) + KeepEmails(p)
  {
    KeepEmailsConcat([x], p);
    assert [x][..0] == [];
  }

  lemma SameStripSameTokens(x: string, y: string)
    requires Strip(x) == Strip(y)
    ensures KeepEmail(x) == KeepEmail(y)
  {
  }

  /** Pieces that are all whitespace yield no token. */
  lemma {:induction false} KeepEmailsOfSpace(p: seq<string>)
    requires forall k :: 0 <= k < |p| ==> AllSpace(p[k])
    ensures KeepEmails(p) == []
    decreases |p|
  {
    if p != [] {
      KeepEmailsOfSpace(p[..|p| - 1]);
      StripAllSpace(p[|p| - 1]);
    }
  }

  /** Whitespace-only pieces in front, and whitespace joined to the front of
      the first remaining piece, yield no token. */
  lemma KeepEmailsAfterSpace(head: seq<string>, last: string, q: seq<string>)
    requires |q| >= 1 && AllSpace(last) && forall k :: 0 <= k < |head| ==> AllSpace(head[k])
    ensures KeepEmails(head + [last + q[0]] + q[1..]) == KeepEmails(q)
  {
    var front := head + [last + q[0]];
    assert KeepEmails(front) == KeepEmail(q[0]) by {
      KeepEmailsSnoc(head, last + q[0]);
      KeepEmailsOfSpace(head);
      StripPrependSpace(last, q[0]);
      SameStripSameTokens(last + q[0], q[0]);
    }
    KeepEmailsConcat(front, q[1..]);
    KeepEmailsCons(q[0], q[1..]);
    ConsDecompose(q);
  }

  /** The same at the back. */
  lemma KeepEmailsBeforeSpace(q: seq<string>, first: string, tail: seq<string>)
    requires |q| >= 1 && AllSpace(first) && forall k :: 0 <= k < |tail| ==> AllSpace(tail[k])
    ensures KeepEmails((q[..|q| - 1] + [q[|q| - 1] + first]) + tail) == KeepEmails(q)
  {
    var init, x := q[..|q| - 1], q[|q| - 1];
    var front := init + [x + first];
    assert KeepEmails(front + tail) == KeepEmails(front) by {
      KeepEmailsConcat(front, tail);
      KeepEmailsOfSpace(tail);
    }
    assert KeepEmails(front) == KeepEmails(init + [x]) by {
      KeepEmailsSnoc(init, x + first);
      KeepEmailsSnoc(init, x);
      StripAppendSpace(x, first);
      SameStripSameTokens(x + first, x);
    }
    SnocDecompose(q);
  }

  /** Leading whitespace contributes no token. */
  lemma LeadingSpaceNoToken(w: string, u: string, seps: set<char>)
    requires AllSpace(w)
    ensures KeepEmails(Split(w + u, seps)) == KeepEmails(Split(u, seps))
  {
    var head, last := SplitAfterSpace(w, u, seps);
    KeepEmailsAfterSpace(head, last, Split(u, seps));
  }

  /** Trailing whitespace contributes no token. */
  lemma TrailingSpaceNoToken(u: string, w: string, seps: set<char>)
    requires AllSpace(w)
    ensures KeepEmails(Split(u + w, seps)) == KeepEmails(Split(u, seps))
  {
    var first, tail := SplitBeforeSpace(u, w, seps);
    KeepEmailsBeforeSpace(Split(u, seps), first, tail);
  }

  /** What the manual field yields, stated without the outer strip and the
      replace: the kept pieces between commas and newlines, a comma counting
      exactly as a newline does. */
  lemma ManualTokensBySeparators(field: string)
    ensures ManualTokens(field) == KeepEmails(Split(field, ManualSeparators))
  {
    var t := Strip(field);
    assert KeepEmails(Split(field, ManualSeparators)) == KeepEmails(Split(t, ManualSeparators)) by {
      var w1, w2 := StripSurround(field);
      LeadingSpaceNoToken(w1, t + w2, ManualSeparators);
      TrailingSpaceNoToken(t, w2, ManualSeparators);
    }
    if t == [] {
      assert Split(t, ManualSeparators) == [[]];
      KeepEmailsOfSpace([[]]);
    } else {
      SplitReplaced(t, ',', '\n');
      assert ManualSeparators == {',', '\n'};
    }
  }

  /** Two fields joined by a comma give the tokens of the first followed by
      those of the second: nothing is merged, reordered or deduplicated. */
  lemma ManualTokensJoin(x: string, y: string)
    ensures ManualTokens(x + [','] + y) == ManualTokens(x) + ManualTokens(y)
  {
    ManualTokensBySeparators(x + [','] + y);
    ManualTokensBySeparators(x);
    ManualTokensBySeparators(y);
    SplitAtSeparator(x, ',', y, ManualSeparators);
    KeepEmailsConcat(Split(x, ManualSeparators), Split(y, ManualSeparators));
  }

  /** The manual field does not deduplicate: a field entered twice, with a
      comma between, gives every token twice. */
  lemma ManualTokensKeepRepeats(x: string)
    ensures ManualTokens(x + [','] + x) == ManualTokens(x) + ManualTokens(x)
  {
    ManualTokensJoin(x, x);
  }

  /** Each stripped piece, in order. */
  function StripEach(pieces: seq<string>): (r: seq<string>)
    ensures |r| == |pieces|
    decreases |pieces|
  {
    if pieces == [] then [] else StripEach(pieces[..|pieces| - 1]) + [Strip(pieces[|pieces| - 1])]
  }

  /** The kept tokens keep the order of the pieces they come from. */
  lemma {:induction false} KeepEmailsInOrder(pieces: seq<string>)
    ensures IsSubsequence(KeepEmails(pieces), StripEach(pieces))
    decreases |pieces|
  {
    if pieces != [] {
      var p := pieces[..|pieces| - 1];
      var k, s := KeepEmails(p), StripEach(p);
      KeepEmailsInOrder(p);
      var e := Strip(pieces[|pieces| - 1]);
      if e != [] && '@' in e {
        assert (k + [e])[..|k|] == k && (s + [e])[..|s|] == s;
      } else {
        assert k + [] == k;
        SubsequenceSnocRight(k, s, e);
      }
    }
  }

  lemma ManualTokensInOrder(field: string)
    ensures IsSubsequence(ManualTokens(field), StripEach(Split(field, ManualSeparators)))
  {
    ManualTokensBySeparators(field);
    KeepEmailsInOrder(Split(field, ManualSeparators));
  }

  // ---------------------------------------------------------------------
  // CSV upload

  /** The uploaded file as the extractor sees it: bytes that are not UTF-8, or
      the rows the CSV reader yielded (up to the end of the file or up to the
      row at which the reader raised). */
  datatype CsvContent = Undecodable | Decoded(rows: seq<seq<string>>)

  /** The "simple email validation" of app.py line 71, on the raw cell. */
  predicate IsCandidate(cell: string) {
    '@' in cell && '.' in cell
  }

  /** The cells in row-major order. */
  function Cells(rows: seq<seq<string>>): (cells: seq<string>)
    decreases |rows|
  {
    if rows == [] then [] else Cells(rows[..|rows| - 1]) + rows[|rows| - 1]
  }

  lemma {:induction false} CellsMembership(rows: seq<seq<string>>, c: string)
    ensures c in Cells(rows) <==> exists i, j :: 0 <= i < |rows| && 0 <= j < |rows[i]| && rows[i][j] == c
    decreases |rows|
  {
    if rows != [] {
      var p := rows[..|rows| - 1];
      CellsMembership(p, c);
      assert forall i :: 0 <= i < |p| ==> p[i] == rows[i];
    }
  }

  /** The stripped candidate cells, in order, with the empty ones dropped. */
  function Candidates(cells: seq<string>): (r: seq<string>)
    decreases |cells|
  {
    if cells == [] then []
    else
      var c := cells[|cells| - 1];
      var e := Strip(c);
      Candidates(cells[..|cells| - 1]) + if IsCandidate(c) && e != [] then [e] else []
  }

  /** A candidate cell never strips to nothing: its '@' survives. */
  lemma CandidateKeepsAt(cell: string)
    requires IsCandidate(cell)
    ensures '@' in Strip(cell) && '.' in Strip(cell)
  {
    StripKeepsNonSpace(cell, '@');
    StripKeepsNonSpace(cell, '.');
  }

  lemma {:induction false} CandidatesMembership(cells: seq<string>, e: string)
    ensures e in Candidates(cells) <==> exists c :: c in cells && IsCandidate(c) && Strip(c) == e
    decreases |cells|
  {
    if cells != [] {
      var p, c := cells[..|cells| - 1], cells[|cells| - 1];
      assert cells == p + [c];
      CandidatesMembership(p, e);
      if IsCandidate(c) {
        CandidateKeepsAt(c);
      }
    }
  }

  /** extract_emails_from_csv as a function: nothing for undecodable bytes,
      otherwise the candidates deduplicated by first occurrence. */
  function CsvEmails(content: CsvContent): (emails: seq<string>)
    ensures NoDup(emails)
    ensures content.Undecodable? ==> emails == []
  {
    match content
    case Undecodable => []
    case Decoded(rows) => Dedup(Candidates(Cells(rows)))
  }

  lemma CandidatesSnoc(seen: seq<string>, cell: string)
    ensures IsCandidate(cell) && Strip(cell) != [] ==> Candidates(seen + [cell]) == Candidates(seen) + [Strip(cell)]
    ensures !(IsCandidate(cell) && Strip(cell) != []) ==> Candidates(seen + [cell]) == Candidates(seen)
  {
    assert (seen + [cell])[..|seen|] == seen;
  }

  lemma CellsSnoc(rows: seq<seq<string>>, i: nat)
    requires i < |rows|
    ensures Cells(rows[..i + 1]) == Cells(rows[..i]) + rows[i]
  {
    assert rows[..i + 1][..i] == rows[..i];
  }

  /** One cell of the scan: its stripped text is appended exactly when the
      cell is a candidate, strips to something, and is not yet collected. */
  lemma CandidateStep(seen: seq<string>, cell: string)
    ensures Dedup(Candidates(seen + [cell])) ==
      if IsCandidate(cell) && Strip(cell) != [] && Strip(cell) !in Dedup(Candidates(seen))
      then Dedup(Candidates(seen)) + [Strip(cell)]
      else Dedup(Candidates(seen))
  {
    CandidatesSnoc(seen, cell);
    if IsCandidate(cell) && Strip(cell) != [] {
      DedupSnoc(Candidates(seen), Strip(cell));
    }
  }

  /** The nested loops of app.py lines 68-74. A decode failure is caught and
      the (empty) list collected so far is returned. */
  method ExtractEmailsFromCsv(content: CsvContent) returns (emails: seq<string>)
    ensures emails == CsvEmails(content)
  {
    emails := [];
    if content.Decoded? {
      var rows := content.rows;
      for i := 0 to |rows|
        invariant emails == Dedup(Candidates(Cells(rows[..i])))
      {
        var row := rows[i];
        ghost var before := Cells(rows[..i]);
        assert before + row[..0] == before;
        for j := 0 to |row|
          invariant emails == Dedup(Candidates(before + row[..j]))
        {
          var cell := row[j];
          ConcatPrefixSnoc(before, row, j);
          CandidateStep(before + row[..j], cell);
          if '@' in cell && '.' in cell {
            var email := Strip(cell);
            if email != [] && email !in emails {
              emails := emails + [email];
            }
          }
        }
        assert row[..|row|] == row;
        CellsSnoc(rows, i);
      }
      assert rows[..|rows|] == rows;
    }
  }

  /** Each extracted email is the stripped text of a cell that passed the
      '@'-and-'.' test, and every such cell's stripped text is extracted. */
  lemma CsvEmailsFromCells(rows: seq<seq<string>>, e: string)
    ensures e in CsvEmails(Decoded(rows)) <==>
      exists i, j :: 0 <= i < |rows| && 0 <= j < |rows[i]| && IsCandidate(rows[i][j]) && Strip(rows[i][j]) == e
  {
    CandidatesMembership(Cells(rows), e);
    if e in CsvEmails(Decoded(rows)) {
      var c :| c in Cells(rows) && IsCandidate(c) && Strip(c) == e;
      CellsMembership(rows, c);
    }
    if exists i, j :: 0 <= i < |rows| && 0 <= j < |rows[i]| && IsCandidate(rows[i][j]) && Strip(rows[i][j]) == e {
      var i, j :| 0 <= i < |rows| && 0 <= j < |rows[i]| && IsCandidate(rows[i][j]) && Strip(rows[i][j]) == e;
      CellsMembership(rows, rows[i][j]);
    }
  }

  /** The extracted emails come in the order of their first qualifying cell,
      reading the file row by row. */
  lemma CsvEmailsInOrder(rows: seq<seq<string>>)
    ensures InFirstOccurrenceOrder(CsvEmails(Decoded(rows)), Candidates(Cells(rows)))
  {
    DedupOrder(Candidates(Cells(rows)));
  }

  /** The order-preserving dedup loop of app.py lines 110-113. */
  method DedupEmails(emails: seq<string>) returns (unique: seq<string>)
    ensures unique == Dedup(emails)
  {
    unique := [];
    for i := 0 to |emails|
      invariant unique == Dedup(emails[..i])
    {
      assert emails[..i + 1] == emails[..i] + [emails[i]];
      DedupSnoc(emails[..i], emails[i]);
      if emails[i] !in unique {
        unique := unique + [emails[i]];
      }
    }
    assert emails[..|emails|] == emails;
  }
}
