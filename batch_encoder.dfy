/**
 * The batch request encoder of util.py: every page image of every uploaded
 * PDF becomes one request entry, tagged `<file name>_page_<idx>` with one
 * counter shared by the whole batch, and the serialised entries make up the
 * JSONL payload.
 *
 * Rasterising a PDF into JPEG data URIs and `json.dumps` are libraries; they
 * appear as the function parameters `render` and `dumps`.
 */
module BatchEncoder {
  import opened Strings

  /** One upload: its full file name (with `.pdf`) and its bytes. */
  datatype Pdf = Pdf(name: string, bytes: seq<bv8>)

  /** `{"type": "image_url", "image_url": ...}` */
  datatype ImageUrlDocument = ImageUrlDocument(kind: string, imageUrl: string)

  /** `{"document": ..., "include_image_base64": ...}` */
  datatype RequestBody = RequestBody(document: ImageUrlDocument, includeImageBase64: bool)

  /** `{"custom_id": ..., "body": ...}` */
  datatype Entry = Entry(customId: string, body: RequestBody)

  /** The page images of a PDF, in page order, as data URIs. */
  type Rasterizer = seq<bv8> -> seq<string>

  /** Single-entry JSON serialisation. */
  type Serializer = Entry -> string

  function CustomId(pdfName: string, idx: nat): string {
    pdfName + "_page_" + NatToString(idx)
  }

  /** The number written by the trailing run of digits of a custom id (for an
      id built by `CustomId`, the counter after `_page_`). */
  function PageIndex(customId: string): nat {
    ParseNat(DigitSuffix(customId))
  }

  function MakeEntry(pdfName: string, imageStr: string, idx: nat): Entry {
    Entry(CustomId(pdfName, idx), RequestBody(ImageUrlDocument("image_url", imageStr), true))
  }

  /** The number of pages of all the PDFs together. */
  function TotalPages(pdfs: seq<Pdf>, render: Rasterizer): nat
    decreases |pdfs|
  {
    if |pdfs| == 0 then 0
    else TotalPages(pdfs[..|pdfs| - 1], render) + |render(pdfs[|pdfs| - 1].bytes)|
  }

  /** The entries of one PDF whose first page gets the counter value `start`. */
  function DocumentEntries(pdfName: string, images: seq<string>, start: nat): seq<Entry> {
    seq(|images|, j requires 0 <= j < |images| => MakeEntry(pdfName, images[j], start + j))
  }

  /** All entries of a batch, in the order the encoder emits them. */
  function Entries(pdfs: seq<Pdf>, render: Rasterizer): (r: seq<Entry>)
    ensures |r| == TotalPages(pdfs, render)
    decreases |pdfs|
  {
    if |pdfs| == 0 then []
    else
      var init := pdfs[..|pdfs| - 1];
      var last := pdfs[|pdfs| - 1];
      Entries(init, render) + DocumentEntries(last.name, render(last.bytes), TotalPages(init, render))
  }

  function Serialized(entries: seq<Entry>, dumps: Serializer): seq<string> {
    seq(|entries|, k requires 0 <= k < |entries| => dumps(entries[k]))
  }

  /** The string `create_jsonl_batch` returns for these entries. */
  function Payload(entries: seq<Entry>, dumps: Serializer): string {
    Join(Terminated(Serialized(entries, dumps)), "\n")
  }

  /** The text `create_jsonl_batch_file` writes for these entries. */
  function FileContent(entries: seq<Entry>, dumps: Serializer): string {
    Concat(Terminated(Serialized(entries, dumps)))
  }

  // ---------------------------------------------------------------------
  // The encoder

  /** `create_jsonl_batch`. */
  method CreateJsonlBatch(pdfs: seq<Pdf>, render: Rasterizer, dumps: Serializer) returns (outputJsonl: string)
    ensures outputJsonl == Payload(Entries(pdfs, render), dumps)
    ensures TotalPages(pdfs, render) == 0 ==> outputJsonl == ""
  {
    var outputLines: seq<string> := [];
    var idx: nat := 0;
    ghost var entries: seq<Entry> := [];
    for i := 0 to |pdfs|
      invariant idx == TotalPages(pdfs[..i], render)
      invariant entries == Entries(pdfs[..i], render)
      invariant outputLines == Terminated(Serialized(entries, dumps))
    {
      var pdfName := pdfs[i].name;
      var base64Images := render(pdfs[i].bytes);
      ghost var start := idx;
      for j := 0 to |base64Images|
        invariant idx == start + j
        invariant entries == Entries(pdfs[..i], render) + DocumentEntries(pdfName, base64Images[..j], start)
        invariant outputLines == Terminated(Serialized(entries, dumps))
      {
        var entry := MakeEntry(pdfName, base64Images[j], idx);
        outputLines := outputLines + [dumps(entry) + "\n"];
        assert DocumentEntries(pdfName, base64Images[..j + 1], start)
            == DocumentEntries(pdfName, base64Images[..j], start) + [entry];
        entries := entries + [entry];
        idx := idx + 1;
      }
      assert base64Images[..|base64Images|] == base64Images;
      assert pdfs[..i + 1][..i] == pdfs[..i];
    }
    assert pdfs[..|pdfs|] == pdfs;
    outputJsonl := Join(outputLines, "\n");
  }

  // ---------------------------------------------------------------------
  // Properties

  /** Page `j` of PDF `i` is entry number `TotalPages(pdfs[..i]) + j`: an
      `image_url` request for that page's data URI with `include_image_base64`
      set, tagged with the PDF's name and that same global number. */
  lemma {:induction false} EntryAt(pdfs: seq<Pdf>, render: Rasterizer, i: nat, j: nat)
    requires i < |pdfs| && j < |render(pdfs[i].bytes)|
    ensures TotalPages(pdfs[..i], render) + j < |Entries(pdfs, render)|
    ensures Entries(pdfs, render)[TotalPages(pdfs[..i], render) + j]
         == Entry(pdfs[i].name + "_page_" + NatToString(TotalPages(pdfs[..i], render) + j),
                  RequestBody(ImageUrlDocument("image_url", render(pdfs[i].bytes)[j]), true))
    decreases |pdfs|
  {
    var init := pdfs[..|pdfs| - 1];
    if i == |pdfs| - 1 {
      assert init == pdfs[..i];
    } else {
      assert init[..i] == pdfs[..i];
      assert init[i] == pdfs[i];
      EntryAt(init, render, i, j);
    }
  }

  /** The counter value can be read back from a custom id. */
  lemma PageIndexOfCustomId(pdfName: string, idx: nat)
    ensures PageIndex(CustomId(pdfName, idx)) == idx
  {
    var prefix := pdfName + "_page_";
    assert prefix[|prefix| - 1] == '_';
    assert CustomId(pdfName, idx) == prefix + NatToString(idx);
    DigitSuffixAfterNonDigit(prefix, NatToString(idx));
    ParseNatToString(idx);
  }

  /** Entry `k` of a batch carries the counter value `k` and an `image_url`
      body with inline images requested: the counter runs 0..n-1 over the
      whole batch, never reset between PDFs. */
  lemma {:induction false} EntriesNumbered(pdfs: seq<Pdf>, render: Rasterizer)
    ensures forall k :: 0 <= k < |Entries(pdfs, render)| ==>
              PageIndex(Entries(pdfs, render)[k].customId) == k
              && Entries(pdfs, render)[k].body.document.kind == "image_url"
              && Entries(pdfs, render)[k].body.includeImageBase64
    decreases |pdfs|
  {
    if |pdfs| > 0 {
      var init := pdfs[..|pdfs| - 1];
      var last := pdfs[|pdfs| - 1];
      var off := TotalPages(init, render);
      var es := Entries(pdfs, render);
      EntriesNumbered(init, render);
      forall k | off <= k < |es|
        ensures PageIndex(es[k].customId) == k
      {
        assert es[k].customId == CustomId(last.name, k);
        PageIndexOfCustomId(last.name, k);
      }
    }
  }

  /** No two entries of a batch share a custom id. */
  lemma CustomIdsDistinct(pdfs: seq<Pdf>, render: Rasterizer)
    ensures forall k1, k2 :: 0 <= k1 < k2 < |Entries(pdfs, render)| ==>
              Entries(pdfs, render)[k1].customId != Entries(pdfs, render)[k2].customId
  {
    EntriesNumbered(pdfs, render);
  }

  /** With newline-free serialisations, the payload's lines are the entries
      each followed by a blank line: consecutive entries are separated by an
      empty line and the payload ends in a single newline. */
  lemma PayloadLines(entries: seq<Entry>, dumps: Serializer)
    requires |entries| > 0
    requires forall k :: 0 <= k < |entries| ==> '\n' !in dumps(entries[k])
    ensures Split(Payload(entries, dumps), "\n") == Interleaved(Serialized(entries, dumps))
  {
    SplitJoinedTerminated(Serialized(entries, dumps));
  }

  /** The file variant writes one serialised entry per line. */
  lemma FileLines(entries: seq<Entry>, dumps: Serializer)
    requires forall k :: 0 <= k < |entries| ==> '\n' !in dumps(entries[k])
    ensures Split(FileContent(entries, dumps), "\n") == Serialized(entries, dumps) + [""]
  {
    SplitConcatTerminated(Serialized(entries, dumps));
  }

  /** The in-memory payload and the file content agree exactly when the
      batch has at most one entry; otherwise the payload is longer by one
      newline per gap between entries. */
  lemma PayloadMatchesFileIff(entries: seq<Entry>, dumps: Serializer)
    ensures Payload(entries, dumps) == FileContent(entries, dumps) <==> |entries| <= 1
    ensures |entries| > 0 ==> |Payload(entries, dumps)| == |FileContent(entries, dumps)| + |entries| - 1
  {
    var lines := Terminated(Serialized(entries, dumps));
    ConcatLength(lines);
    if |entries| > 0 {
      JoinLength(lines, "\n");
    }
    if |entries| == 1 {
      assert lines[1..] == [];
    }
  }
}
