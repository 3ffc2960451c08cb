/** The batch pipeline of the /generate route: collect the manual and CSV
    emails, deduplicate them, render one QR image per email and report which
    succeeded. Whether rendering and saving the image for an email succeeds is
    an oracle `render`: qrcode, the styling and the file write are outside the
    model, and a failed attempt writes nothing. */
module Batch {
  import opened Text
  import opened Seqs
  import opened EmailExtractor
  import opened Storage

  /** The name of the image generate_qr_code writes for an email. */
  function QrFileName(email: string): string {
    email + ".png"
  }

  /** The path generate_qr_code returns on success (app.py line 50). */
  function QrPath(email: string): string {
    "volunteers/" + QrFileName(email)
  }

  lemma QrFileIsPng(email: string)
    ensures IsPng(QrFileName(email))
  {
    assert QrFileName(email)[|email|..] == ".png";
  }

  /** A successful generation: the email and the path of its image. */
  datatype Artifact = Artifact(email: string, path: string)

  /** The two lists the batch loop builds. */
  datatype Outcome = Outcome(generated: seq<Artifact>, failed: seq<string>)

  function EmailsOf(arts: seq<Artifact>): (emails: seq<string>)
    ensures |emails| == |arts|
    ensures forall k :: 0 <= k < |arts| ==> emails[k] == arts[k].email
    decreases |arts|
  {
    if arts == [] then [] else EmailsOf(arts[..|arts| - 1]) + [arts[|arts| - 1].email]
  }

  /** generate_qr_code: on success the image is saved and its path returned;
      on failure nothing is written and None is returned. */
  method GenerateQrCode(email: string, render: string -> bool, dir: Directory) returns (path: Option<string>)
    modifies dir
    ensures render(email) ==> path == Some(QrPath(email)) && dir.files == old(dir.files) + {QrFileName(email)}
    ensures !render(email) ==> path == None && dir.files == old(dir.files)
  {
    if render(email) {
      dir.Save(QrFileName(email));
      path := Some(QrPath(email));
    } else {
      path := None;
    }
  }

  /** The batch loop (app.py lines 120-128) as a function: each email, in
      order, goes to the generated list with its path or to the failed list. */
  function RunBatch(emails: seq<string>, render: string -> bool): (r: Outcome)
    ensures |r.generated| + |r.failed| == |emails|
    decreases |emails|
  {
    if emails == [] then Outcome([], [])
    else
      var b := RunBatch(emails[..|emails| - 1], render);
      var e := emails[|emails| - 1];
      if render(e) then Outcome(b.generated + [Artifact(e, QrPath(e))], b.failed)
      else Outcome(b.generated, b.failed + [e])
  }

  /** The files a batch adds to the directory. */
  function WrittenFiles(r: Outcome): set<string> {
    set a | a in r.generated :: QrFileName(a.email)
  }

  lemma EmailsOfSnoc(arts: seq<Artifact>, a: Artifact)
    ensures EmailsOf(arts + [a]) == EmailsOf(arts) + [a.email]
  {
    assert (arts + [a])[..|arts|] == arts;
  }

  /** The partition the batch loop produces: an email is generated exactly
      when it renders and failed exactly when it does not, so each email lands
      in exactly one list, and each generated entry carries its own image
      path. */
  lemma {:induction false} RunBatchPartition(emails: seq<string>, render: string -> bool)
    ensures forall e :: e in EmailsOf(RunBatch(emails, render).generated) <==> e in emails && render(e)
    ensures forall e :: e in RunBatch(emails, render).failed <==> e in emails && !render(e)
    ensures forall e :: e in emails ==>
      (e in EmailsOf(RunBatch(emails, render).generated) <==> e !in RunBatch(emails, render).failed)
    ensures forall a :: a in RunBatch(emails, render).generated ==> a.path == QrPath(a.email)
    decreases |emails|
  {
    if emails != [] {
      var p, e := emails[..|emails| - 1], emails[|emails| - 1];
      assert emails == p + [e];
      RunBatchPartition(p, render);
      if render(e) {
        EmailsOfSnoc(RunBatch(p, render).generated, Artifact(e, QrPath(e)));
      }
    }
  }

  /** One more email at the end of the batch goes to the end of one list. */
  lemma RunBatchSnoc(p: seq<string>, e: string, render: string -> bool)
    ensures render(e) ==>
      RunBatch(p + [e], render) == Outcome(RunBatch(p, render).generated + [Artifact(e, QrPath(e))], RunBatch(p, render).failed)
    ensures !render(e) ==>
      RunBatch(p + [e], render) == Outcome(RunBatch(p, render).generated, RunBatch(p, render).failed + [e])
  {
    assert (p + [e])[..|p|] == p;
  }

  /** Both lists keep the order of the input. */
  lemma {:induction false} RunBatchInOrder(emails: seq<string>, render: string -> bool)
    ensures IsSubsequence(EmailsOf(RunBatch(emails, render).generated), emails)
    ensures IsSubsequence(RunBatch(emails, render).failed, emails)
    decreases |emails|
  {
    if emails != [] {
      var p, e := emails[..|emails| - 1], emails[|emails| - 1];
      SnocDecompose(emails);
      RunBatchInOrder(p, render);
      RunBatchInOrderStep(p, e, render);
    }
  }

  lemma RunBatchInOrderStep(p: seq<string>, e: string, render: string -> bool)
    requires IsSubsequence(EmailsOf(RunBatch(p, render).generated), p)
    requires IsSubsequence(RunBatch(p, render).failed, p)
    ensures IsSubsequence(EmailsOf(RunBatch(p + [e], render).generated), p + [e])
    ensures IsSubsequence(RunBatch(p + [e], render).failed, p + [e])
  {
    var b := RunBatch(p, render);
    var g := EmailsOf(b.generated);
    RunBatchSnoc(p, e, render);
    if render(e) {
      EmailsOfSnoc(b.generated, Artifact(e, QrPath(e)));
      SubsequenceSnocBoth(g, p, e);
      SubsequenceSnocRight(b.failed, p, e);
    } else {
      SubsequenceSnocBoth(b.failed, p, e);
      SubsequenceSnocRight(g, p, e);
    }
  }

  /** Without duplicates in the input, no email is reported both generated
      and failed, and neither list repeats an email. */
  lemma {:induction false} RunBatchNoDup(emails: seq<string>, render: string -> bool)
    requires NoDup(emails)
    ensures NoDup(EmailsOf(RunBatch(emails, render).generated))
    ensures NoDup(RunBatch(emails, render).failed)
    decreases |emails|
  {
    if emails != [] {
      var p, e := emails[..|emails| - 1], emails[|emails| - 1];
      assert emails == p + [e];
      NoDupSnoc(p, e);
      RunBatchNoDup(p, render);
      RunBatchPartition(p, render);
      var b := RunBatch(p, render);
      if render(e) {
        EmailsOfSnoc(b.generated, Artifact(e, QrPath(e)));
        NoDupSnoc(EmailsOf(b.generated), e);
      } else {
        NoDupSnoc(b.failed, e);
      }
    }
  }

  /** Nothing is generated exactly when every email fails to render. */
  lemma NothingGenerated(emails: seq<string>, render: string -> bool)
    ensures RunBatch(emails, render).generated == [] <==> forall e :: e in emails ==> !render(e)
  {
    RunBatchPartition(emails, render);
    var g := RunBatch(emails, render).generated;
    if g != [] {
      assert EmailsOf(g)[0] in EmailsOf(g);
    }
  }

  /** The batch loop with its side effects (app.py lines 123-128). */
  method GenerateBatch(unique: seq<string>, render: string -> bool, dir: Directory) returns (r: Outcome)
    modifies dir
    ensures r == RunBatch(unique, render)
    ensures dir.files == old(dir.files) + WrittenFiles(r)
  {
    r := Outcome([], []);
    for i := 0 to |unique|
      invariant r == RunBatch(unique[..i], render)
      invariant dir.files == old(dir.files) + WrittenFiles(r)
    {
      var email := unique[i];
      assert unique[..i + 1][..i] == unique[..i];
      var path := GenerateQrCode(email, render, dir);
      if path.Some? {
        r := Outcome(r.generated + [Artifact(email, path.value)], r.failed);
      } else {
        r := Outcome(r.generated, r.failed + [email]);
      }
    }
    assert unique[..|unique|] == unique;
  }

  // ---------------------------------------------------------------------
  // The /generate request

  /** What file.read() delivers: an error, or bytes the extractor reads. */
  datatype FileData = Unreadable | Readable(content: CsvContent)

  /** The csv_file part of the form, if any. */
  datatype Upload = NoFile | File(filename: string, data: FileData)

  /** What the route answers: a redirect with a flashed error, or the results
      page with both lists. */
  datatype Response =
    | ReadError
    | NoValidEmails
    | NoneGenerated(failed: seq<string>)
    | Results(generated: seq<Artifact>, failed: seq<string>)

  /** The emails of the upload (app.py lines 98-104): none when there is no
      file or its name is not allowed, None when reading it fails. */
  function UploadedEmails(upload: Upload): Option<seq<string>> {
    match upload
    case NoFile => Some([])
    case File(filename, data) =>
      if !AllowedFile(filename) then Some([])
      else match data
        case Unreadable => None
        case Readable(content) => Some(CsvEmails(content))
  }

  /** The deduplicated emails of a request whose upload could be read. */
  function RequestEmails(manual: string, csv: seq<string>): (unique: seq<string>)
    ensures NoDup(unique)
  {
    Dedup(ManualTokens(manual) + csv)
  }

  /** The response of generate_qr_codes as a function of the form fields and
      the render oracle. */
  function Respond(manual: string, upload: Upload, render: string -> bool): Response {
    match UploadedEmails(upload)
    case None => ReadError
    case Some(csv) =>
      var unique := RequestEmails(manual, csv);
      if unique == [] then NoValidEmails
      else
        var r := RunBatch(unique, render);
        if r.generated == [] then NoneGenerated(r.failed) else Results(r.generated, r.failed)
  }

  /** The files the request adds to the directory. */
  function RequestFiles(manual: string, upload: Upload, render: string -> bool): set<string> {
    match UploadedEmails(upload)
    case None => {}
    case Some(csv) => WrittenFiles(RunBatch(RequestEmails(manual, csv), render))
  }

  /** generate_qr_codes (app.py lines 85-140). */
  method GenerateQrCodes(manual: string, upload: Upload, render: string -> bool, dir: Directory)
    returns (response: Response)
    modifies dir
    ensures response == Respond(manual, upload, render)
    ensures dir.files == old(dir.files) + RequestFiles(manual, upload, render)
  {
    var emails := ParseManualEmails(manual);
    var csv: seq<string> := [];
    if upload.File? && AllowedFile(upload.filename) {
      if upload.data.Unreadable? {
        return ReadError;
      }
      csv := ExtractEmailsFromCsv(upload.data.content);
    }
    emails := emails + csv;
    var unique := DedupEmails(emails);
    if unique == [] {
      assert WrittenFiles(RunBatch([], render)) == {};
      return NoValidEmails;
    }
    var r := GenerateBatch(unique, render, dir);
    if r.generated == [] {
      response := NoneGenerated(r.failed);
    } else {
      response := Results(r.generated, r.failed);
    }
  }

  /** A request is rejected for want of emails exactly when neither the manual
      field nor the upload yields one. */
  lemma NoValidEmailsIff(manual: string, upload: Upload, render: string -> bool)
    ensures Respond(manual, upload, render) == NoValidEmails <==>
      ManualTokens(manual) == [] && UploadedEmails(upload) == Some([])
  {
    match UploadedEmails(upload)
    case None =>
    case Some(csv) =>
      var all := ManualTokens(manual) + csv;
      if all != [] {
        assert all[0] in all;
        assert all[0] in RequestEmails(manual, csv);
      }
  }

  /** A rejected request writes no file. */
  lemma RejectedWritesNothing(manual: string, upload: Upload, render: string -> bool)
    requires Respond(manual, upload, render).ReadError? || Respond(manual, upload, render).NoValidEmails?
    ensures RequestFiles(manual, upload, render) == {}
  {
    assert RunBatch([], render) == Outcome([], []);
  }

  /** An upload whose name is not allowed is ignored entirely. */
  lemma DisallowedUploadIgnored(manual: string, filename: string, data: FileData, render: string -> bool)
    requires !AllowedFile(filename)
    ensures Respond(manual, File(filename, data), render) == Respond(manual, NoFile, render)
    ensures RequestFiles(manual, File(filename, data), render) == RequestFiles(manual, NoFile, render)
  {
  }

  /** The manual emails come first, in their own deduplicated order; the CSV
      emails that follow are only those not already entered by hand. */
  lemma ManualEmailsFirst(manual: string, csv: seq<string>)
    ensures Dedup(ManualTokens(manual)) <= RequestEmails(manual, csv)
    ensures forall k :: |Dedup(ManualTokens(manual))| <= k < |RequestEmails(manual, csv)| ==>
      RequestEmails(manual, csv)[k] !in ManualTokens(manual) && RequestEmails(manual, csv)[k] in csv
  {
    DedupConcat(ManualTokens(manual), csv);
  }

  /** A manual list [a, b] merged with a CSV list [b, c] of distinct emails
      keeps the shared one once, where the manual list has it. */
  lemma MergeOverlap(a: string, b: string, c: string)
    requires a != b && a != c && b != c
    ensures Dedup([a, b] + [b, c]) == [a, b, c]
  {
    var ab := [a, b];
    var abb := ab + [b];
    assert Dedup(ab) == ab by {
      DedupNoDup(ab);
    }
    assert Dedup(abb) == ab by {
      DedupSnoc(ab, b);
    }
    assert Dedup(abb + [c]) == ab + [c] by {
      DedupSnoc(abb, c);
      assert c !in abb by {
        assert abb == [a, b, b];
      }
    }
    assert ab + [b, c] == abb + [c] && ab + [c] == [a, b, c];
  }

  /** Manual [a, b] merged with CSV [b, c] gives [a, b, c]. */
  lemma MergeExample()
    ensures Dedup(["a@x.com", "b@y.com"] + ["b@y.com", "c@x.com"]) == ["a@x.com", "b@y.com", "c@x.com"]
  {
    var a, b, c := "a@x.com", "b@y.com", "c@x.com";
    assert a[0] != b[0] && a[0] != c[0] && b[0] != c[0];
    MergeOverlap(a, b, c);
  }

  /** The results page is shown exactly when at least one email renders; in
      that case the failures are listed beside the successes, and every email
      of the request lands in exactly one of the two lists. */
  lemma ResultsIff(manual: string, upload: Upload, render: string -> bool)
    requires UploadedEmails(upload).Some?
    ensures Respond(manual, upload, render).Results? <==>
      exists e :: e in RequestEmails(manual, UploadedEmails(upload).value) && render(e)
  {
    var unique := RequestEmails(manual, UploadedEmails(upload).value);
    NothingGenerated(unique, render);
  }

  /** Every image the request writes is one a later clear_files removes. */
  lemma ClearRemovesRequestFiles(manual: string, upload: Upload, render: string -> bool, files: set<string>)
    ensures Cleared(files + RequestFiles(manual, upload, render)) == Cleared(files)
  {
    match UploadedEmails(upload)
    case None =>
    case Some(csv) =>
      var r := RunBatch(RequestEmails(manual, csv), render);
      forall f | f in WrittenFiles(r) ensures IsPng(f) {
        var a :| a in r.generated && QrFileName(a.email) == f;
        QrFileIsPng(a.email);
      }
      ClearedKeepsOthers(files, WrittenFiles(r));
  }
}
