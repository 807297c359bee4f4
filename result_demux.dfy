/**
 * The result demultiplexer of util.py (the grouping part of
 * `download_markdown_files`): each result record goes to the list of the
 * upload whose stem matches the text before the first `.` of its custom id.
 *
 * Downloading the output file and `json.loads` are left out: the records
 * arrive as a sequence of (custom id, `pages[0].markdown`) pairs.
 */
module ResultDemux {
  import opened Strings
  import opened BatchEncoder

  /** One parsed output line: its `custom_id` and `response.body.pages[0].markdown`. */
  datatype ResultRecord = ResultRecord(customId: string, markdown: string)

  /** `[pdf.name.split('.')[0] for pdf in uploaded_pdfs]` */
  function FileNames(uploadedNames: seq<string>): seq<string> {
    seq(|uploadedNames|, i requires 0 <= i < |uploadedNames| => Stem(uploadedNames[i]))
  }

  /** The file names are the first pieces of Python's `name.split('.')`. */
  lemma FileNamesAreFirstPieces(uploadedNames: seq<string>)
    ensures |FileNames(uploadedNames)| == |uploadedNames|
    ensures forall i :: 0 <= i < |uploadedNames| ==> FileNames(uploadedNames)[i] == Split(uploadedNames[i], ".")[0]
  {
    forall i | 0 <= i < |uploadedNames| ensures Split(uploadedNames[i], ".")[0] == Stem(uploadedNames[i]) {
      StemIsFirstPiece(uploadedNames[i]);
    }
  }

  /** The Markdown of the records whose custom id has stem `fileName`, in arrival order. */
  function MarkdownsFor(records: seq<ResultRecord>, fileName: string): seq<string>
    decreases |records|
  {
    if |records| == 0 then []
    else
      var last := records[|records| - 1];
      MarkdownsFor(records[..|records| - 1], fileName)
        + (if Stem(last.customId) == fileName then [last.markdown] else [])
  }

  /** Every known stem mapped to the Markdown of its records. */
  function Grouped(fileNames: seq<string>, records: seq<ResultRecord>): map<string, seq<string>> {
    map k | k in fileNames :: MarkdownsFor(records, k)
  }

  // ---------------------------------------------------------------------
  // The grouping loop

  /** The map `download_markdown_files` stores in
      `st.session_state.markdown_mistral`, computed from already-parsed records. */
  method DownloadMarkdownFiles(uploadedNames: seq<string>, records: seq<ResultRecord>)
    returns (markdownMistral: map<string, seq<string>>)
    ensures markdownMistral == Grouped(FileNames(uploadedNames), records)
    ensures markdownMistral.Keys == set i | 0 <= i < |uploadedNames| :: Stem(uploadedNames[i])
    ensures forall k :: k in markdownMistral ==> markdownMistral[k] == MarkdownsFor(records, k)
  {
    var fileNames := FileNames(uploadedNames);
    markdownMistral := map k | k in fileNames :: [];
    assert markdownMistral == Grouped(fileNames, records[..0]);
    for i := 0 to |records|
      invariant markdownMistral == Grouped(fileNames, records[..i])
    {
      var obj := records[i];
      var fileName := Stem(obj.customId);
      GroupedStep(fileNames, records[..i], obj);
      if fileName in fileNames {
        markdownMistral := markdownMistral[fileName := markdownMistral[fileName] + [obj.markdown]];
      }
      assert records[..i + 1] == records[..i] + [obj];
    }
    assert records[..|records|] == records;
    GroupedKeys(uploadedNames, records);
  }

  /** One more record appends its Markdown to its stem's list, if that stem
      is a known file name, and changes nothing else. */
  lemma GroupedStep(fileNames: seq<string>, records: seq<ResultRecord>, r: ResultRecord)
    ensures Grouped(fileNames, records + [r])
         == if Stem(r.customId) in fileNames
            then Grouped(fileNames, records)[Stem(r.customId) := Grouped(fileNames, records)[Stem(r.customId)] + [r.markdown]]
            else Grouped(fileNames, records)
  {
    var g := Grouped(fileNames, records);
    var g' := Grouped(fileNames, records + [r]);
    var key := Stem(r.customId);
    assert (records + [r])[..|records|] == records;
    assert forall k :: k in fileNames ==> g'[k] == g[k] + (if key == k then [r.markdown] else []);
    assert g'.Keys == g.Keys;
    if key in fileNames {
      var h := g[key := g[key] + [r.markdown]];
      assert h.Keys == g'.Keys;
      forall k | k in h ensures h[k] == g'[k] {
        if k == key {
        } else {
          assert h[k] == g[k];
        }
      }
    } else {
      forall k | k in g ensures g[k] == g'[k] {
      }
    }
  }

  /** The keys are the stems of the uploads. */
  lemma GroupedKeys(uploadedNames: seq<string>, records: seq<ResultRecord>)
    ensures Grouped(FileNames(uploadedNames), records).Keys == set i | 0 <= i < |uploadedNames| :: Stem(uploadedNames[i])
  {
    var fileNames := FileNames(uploadedNames);
    forall k | k in fileNames ensures k in set i | 0 <= i < |uploadedNames| :: Stem(uploadedNames[i]) {
      var i :| 0 <= i < |fileNames| && fileNames[i] == k;
    }
    forall i | 0 <= i < |uploadedNames| ensures Stem(uploadedNames[i]) in fileNames {
      assert fileNames[i] == Stem(uploadedNames[i]);
    }
  }

  // ---------------------------------------------------------------------
  // Properties of the grouping

  lemma {:induction false} MarkdownsForConcat(a: seq<ResultRecord>, b: seq<ResultRecord>, k: string)
    ensures MarkdownsFor(a + b, k) == MarkdownsFor(a, k) + MarkdownsFor(b, k)
    decreases |b|
  {
    if |b| == 0 {
      assert a + b == a;
    } else {
      assert (a + b)[..|a + b| - 1] == a + b[..|b| - 1];
      MarkdownsForConcat(a, b[..|b| - 1], k);
    }
  }

  /** A record whose stem is not a known file name changes no list, wherever it arrives. */
  lemma UnknownRecordIgnored(fileNames: seq<string>, a: seq<ResultRecord>, r: ResultRecord, b: seq<ResultRecord>)
    requires Stem(r.customId) !in fileNames
    ensures Grouped(fileNames, a + [r] + b) == Grouped(fileNames, a + b)
  {
    forall k | k in fileNames
      ensures MarkdownsFor(a + [r] + b, k) == MarkdownsFor(a + b, k)
    {
      MarkdownsForConcat(a + [r], b, k);
      MarkdownsForConcat(a, [r], k);
      MarkdownsForConcat(a, b, k);
      assert MarkdownsFor([r], k) == [] by {
        assert [r][..0] == [];
      }
    }
  }

  predicate Distinct(fileNames: seq<string>) {
    forall i, j :: 0 <= i < j < |fileNames| ==> fileNames[i] != fileNames[j]
  }

  /** The number of records whose stem is one of the file names. */
  function MatchedCount(records: seq<ResultRecord>, fileNames: seq<string>): nat
    decreases |records|
  {
    if |records| == 0 then 0
    else MatchedCount(records[..|records| - 1], fileNames)
         + (if Stem(records[|records| - 1].customId) in fileNames then 1 else 0)
  }

  /** The lengths of all the lists together. */
  function ListLengths(fileNames: seq<string>, records: seq<ResultRecord>): nat
    decreases |fileNames|
  {
    if |fileNames| == 0 then 0
    else |MarkdownsFor(records, fileNames[0])| + ListLengths(fileNames[1..], records)
  }

  lemma {:induction false} ListLengthsStep(fileNames: seq<string>, records: seq<ResultRecord>, r: ResultRecord)
    requires Distinct(fileNames)
    ensures ListLengths(fileNames, records + [r])
         == ListLengths(fileNames, records) + (if Stem(r.customId) in fileNames then 1 else 0)
    decreases |fileNames|
  {
    if |fileNames| > 0 {
      assert (records + [r])[..|records|] == records;
      ListLengthsStep(fileNames[1..], records, r);
      assert fileNames == [fileNames[0]] + fileNames[1..];
      assert fileNames[0] !in fileNames[1..] by {
        assert forall j :: 0 <= j < |fileNames[1..]| ==> fileNames[1..][j] == fileNames[j + 1];
      }
    }
  }

  /** With distinct file names, the lists hold as many entries as there are
      records with a known stem: only unknown records are dropped. */
  lemma {:induction false} ListLengthsCountMatched(fileNames: seq<string>, records: seq<ResultRecord>)
    requires Distinct(fileNames)
    ensures ListLengths(fileNames, records) == MatchedCount(records, fileNames)
    decreases |records|
  {
    if |records| == 0 {
      ListLengthsEmpty(fileNames);
    } else {
      var init := records[..|records| - 1];
      ListLengthsCountMatched(fileNames, init);
      ListLengthsStep(fileNames, init, records[|records| - 1]);
      assert init + [records[|records| - 1]] == records;
    }
  }

  lemma {:induction false} ListLengthsEmpty(fileNames: seq<string>)
    ensures ListLengths(fileNames, []) == 0
    decreases |fileNames|
  {
    if |fileNames| > 0 {
      ListLengthsEmpty(fileNames[1..]);
    }
  }

  // ---------------------------------------------------------------------
  // Encoder to demultiplexer

  /** What the service returns if it answers every request in submission
      order: each entry's custom id with that page's Markdown. */
  function EchoRecords(entries: seq<Entry>, pageMarkdowns: seq<string>): (r: seq<ResultRecord>)
    requires |pageMarkdowns| == |entries|
  {
    seq(|entries|, k requires 0 <= k < |entries| => ResultRecord(entries[k].customId, pageMarkdowns[k]))
  }

  function MarkdownsOf(records: seq<ResultRecord>): seq<string> {
    seq(|records|, k requires 0 <= k < |records| => records[k].markdown)
  }

  /** Records that all share one stem go, all of them and in order, to that stem's list. */
  lemma {:induction false} UniformStem(records: seq<ResultRecord>, s: string, k: string)
    requires forall j :: 0 <= j < |records| ==> Stem(records[j].customId) == s
    ensures MarkdownsFor(records, k) == if k == s then MarkdownsOf(records) else []
    decreases |records|
  {
    if |records| > 0 {
      var init := records[..|records| - 1];
      assert forall j :: 0 <= j < |init| ==> init[j] == records[j];
      UniformStem(init, s, k);
      assert MarkdownsOf(records) == MarkdownsOf(init) + [records[|records| - 1].markdown];
    }
  }

  /** Every record of one document's entries carries that document's stem. */
  lemma DocumentRecordsStem(pdfName: string, images: seq<string>, start: nat, mds: seq<string>, k: string)
    requires '.' in pdfName
    requires |mds| == |images|
    ensures MarkdownsFor(EchoRecords(DocumentEntries(pdfName, images, start), mds), k)
         == if k == Stem(pdfName) then mds else []
  {
    var rs := EchoRecords(DocumentEntries(pdfName, images, start), mds);
    forall j | 0 <= j < |rs| ensures Stem(rs[j].customId) == Stem(pdfName) {
      assert rs[j].customId == pdfName + ("_page_" + NatToString(start + j));
      StemOfExtended(pdfName, "_page_" + NatToString(start + j));
    }
    UniformStem(rs, Stem(pdfName), k);
    assert MarkdownsOf(rs) == mds;
  }

  /** The records of a batch are those of all but its last PDF, then the last PDF's. */
  lemma EchoSplit(pdfs: seq<Pdf>, render: Rasterizer, pageMarkdowns: seq<string>)
    requires |pdfs| > 0
    requires |pageMarkdowns| == TotalPages(pdfs, render)
    ensures var init := pdfs[..|pdfs| - 1];
            var last := pdfs[|pdfs| - 1];
            var off := TotalPages(init, render);
            EchoRecords(Entries(pdfs, render), pageMarkdowns)
            == EchoRecords(Entries(init, render), pageMarkdowns[..off])
               + EchoRecords(DocumentEntries(last.name, render(last.bytes), off), pageMarkdowns[off..])
  {
  }

  /** The submitted pages' Markdown cut into one piece per upload, in
      upload order: piece `i` holds the Markdown of upload `i`'s pages. */
  function PerUpload(pdfs: seq<Pdf>, render: Rasterizer, pageMarkdowns: seq<string>): (r: seq<seq<string>>)
    requires |pageMarkdowns| == TotalPages(pdfs, render)
    ensures |r| == |pdfs|
    ensures forall i :: 0 <= i < |pdfs| ==> |r[i]| == |render(pdfs[i].bytes)|
    decreases |pdfs|
  {
    if |pdfs| == 0 then []
    else
      var init := pdfs[..|pdfs| - 1];
      var off := TotalPages(init, render);
      assert forall i :: 0 <= i < |init| ==> init[i] == pdfs[i];
      PerUpload(init, render, pageMarkdowns[..off]) + [pageMarkdowns[off..]]
  }

  function Flatten(pieces: seq<seq<string>>): seq<string>
    decreases |pieces|
  {
    if |pieces| == 0 then [] else Flatten(pieces[..|pieces| - 1]) + pieces[|pieces| - 1]
  }

  /** The pieces cover all submitted pages, in submission order. */
  lemma {:induction false} PerUploadCoversPages(pdfs: seq<Pdf>, render: Rasterizer, pageMarkdowns: seq<string>)
    requires |pageMarkdowns| == TotalPages(pdfs, render)
    ensures Flatten(PerUpload(pdfs, render, pageMarkdowns)) == pageMarkdowns
    decreases |pdfs|
  {
    if |pdfs| > 0 {
      var init := pdfs[..|pdfs| - 1];
      var off := TotalPages(init, render);
      var r := PerUpload(pdfs, render, pageMarkdowns);
      PerUploadCoversPages(init, render, pageMarkdowns[..off]);
      assert r[..|r| - 1] == PerUpload(init, render, pageMarkdowns[..off]);
      assert pageMarkdowns == pageMarkdowns[..off] + pageMarkdowns[off..];
    }
  }

  predicate DistinctStems(pdfs: seq<Pdf>) {
    forall i, j :: 0 <= i < j < |pdfs| ==> Stem(pdfs[i].name) != Stem(pdfs[j].name)
  }

  predicate DottedNames(pdfs: seq<Pdf>) {
    forall i :: 0 <= i < |pdfs| ==> '.' in pdfs[i].name
  }

  /** One step of the round-trip induction: adding the last PDF. */
  lemma RoundTripStep(pdfs: seq<Pdf>, render: Rasterizer, pageMarkdowns: seq<string>, k: string)
    requires |pdfs| > 0
    requires |pageMarkdowns| == TotalPages(pdfs, render)
    requires '.' in pdfs[|pdfs| - 1].name
    ensures var init := pdfs[..|pdfs| - 1];
            var off := TotalPages(init, render);
            MarkdownsFor(EchoRecords(Entries(pdfs, render), pageMarkdowns), k)
            == MarkdownsFor(EchoRecords(Entries(init, render), pageMarkdowns[..off]), k)
               + (if k == Stem(pdfs[|pdfs| - 1].name) then pageMarkdowns[off..] else [])
  {
    var init := pdfs[..|pdfs| - 1];
    var last := pdfs[|pdfs| - 1];
    var off := TotalPages(init, render);
    EchoSplit(pdfs, render, pageMarkdowns);
    MarkdownsForConcat(EchoRecords(Entries(init, render), pageMarkdowns[..off]),
                       EchoRecords(DocumentEntries(last.name, render(last.bytes), off), pageMarkdowns[off..]), k);
    DocumentRecordsStem(last.name, render(last.bytes), off, pageMarkdowns[off..], k);
  }

  /** A stem that is no upload's stem gets nothing back from the batch's
      records, provided every upload name contains a `.`. */
  lemma {:induction false} RoundTripUnknownStem(pdfs: seq<Pdf>, render: Rasterizer, pageMarkdowns: seq<string>, k: string)
    requires |pageMarkdowns| == TotalPages(pdfs, render)
    requires DottedNames(pdfs)
    requires forall i :: 0 <= i < |pdfs| ==> Stem(pdfs[i].name) != k
    ensures MarkdownsFor(EchoRecords(Entries(pdfs, render), pageMarkdowns), k) == []
    decreases |pdfs|
  {
    if |pdfs| == 0 {
      assert EchoRecords(Entries(pdfs, render), pageMarkdowns) == [];
    } else {
      var init := pdfs[..|pdfs| - 1];
      assert forall i :: 0 <= i < |init| ==> init[i] == pdfs[i];
      RoundTripUnknownStem(init, render, pageMarkdowns[..TotalPages(init, render)], k);
      RoundTripStep(pdfs, render, pageMarkdowns, k);
    }
  }

  /** The round trip: if every upload name contains a `.`, no two uploads share
      a stem, and the records are the batch's custom ids in submission order,
      then upload `i`'s list is exactly its own pages' Markdown, in page order. */
  lemma {:induction false} RoundTrip(pdfs: seq<Pdf>, render: Rasterizer, pageMarkdowns: seq<string>, i: nat)
    requires |pageMarkdowns| == TotalPages(pdfs, render)
    requires DottedNames(pdfs)
    requires DistinctStems(pdfs)
    requires i < |pdfs|
    ensures MarkdownsFor(EchoRecords(Entries(pdfs, render), pageMarkdowns), Stem(pdfs[i].name))
         == PerUpload(pdfs, render, pageMarkdowns)[i]
    decreases |pdfs|
  {
    if i == |pdfs| - 1 {
      RoundTripLast(pdfs, render, pageMarkdowns);
    } else {
      var init := pdfs[..|pdfs| - 1];
      PrefixKeepsNames(pdfs);
      RoundTrip(init, render, pageMarkdowns[..TotalPages(init, render)], i);
      RoundTripEarlier(pdfs, render, pageMarkdowns, i);
    }
  }

  lemma PrefixKeepsNames(pdfs: seq<Pdf>)
    requires |pdfs| > 0
    requires DottedNames(pdfs)
    requires DistinctStems(pdfs)
    ensures DottedNames(pdfs[..|pdfs| - 1]) && DistinctStems(pdfs[..|pdfs| - 1])
  {
  }

  /** The last upload gets exactly its own pages. */
  lemma RoundTripLast(pdfs: seq<Pdf>, render: Rasterizer, pageMarkdowns: seq<string>)
    requires |pdfs| > 0
    requires |pageMarkdowns| == TotalPages(pdfs, render)
    requires DottedNames(pdfs)
    requires DistinctStems(pdfs)
    ensures MarkdownsFor(EchoRecords(Entries(pdfs, render), pageMarkdowns), Stem(pdfs[|pdfs| - 1].name))
         == PerUpload(pdfs, render, pageMarkdowns)[|pdfs| - 1]
  {
    var n := |pdfs|;
    var init := pdfs[..n - 1];
    var off := TotalPages(init, render);
    var k := Stem(pdfs[n - 1].name);
    assert forall j :: 0 <= j < |init| ==> init[j] == pdfs[j];
    assert forall j :: 0 <= j < |init| ==> Stem(init[j].name) != k;
    RoundTripUnknownStem(init, render, pageMarkdowns[..off], k);
    RoundTripStep(pdfs, render, pageMarkdowns, k);
  }

  /** An earlier upload keeps the list it had before the last upload was added. */
  lemma RoundTripEarlier(pdfs: seq<Pdf>, render: Rasterizer, pageMarkdowns: seq<string>, i: nat)
    requires i < |pdfs| - 1
    requires |pageMarkdowns| == TotalPages(pdfs, render)
    requires DottedNames(pdfs)
    requires DistinctStems(pdfs)
    requires var init := pdfs[..|pdfs| - 1];
             var initMds := pageMarkdowns[..TotalPages(init, render)];
             MarkdownsFor(EchoRecords(Entries(init, render), initMds), Stem(init[i].name))
             == PerUpload(init, render, initMds)[i]
    ensures MarkdownsFor(EchoRecords(Entries(pdfs, render), pageMarkdowns), Stem(pdfs[i].name))
         == PerUpload(pdfs, render, pageMarkdowns)[i]
  {
    var n := |pdfs|;
    var init := pdfs[..n - 1];
    var off := TotalPages(init, render);
    var k := Stem(pdfs[i].name);
    assert init[i] == pdfs[i];
    assert k != Stem(pdfs[n - 1].name);
    RoundTripStep(pdfs, render, pageMarkdowns, k);
    var pieces := PerUpload(pdfs, render, pageMarkdowns);
    assert pieces[i] == PerUpload(init, render, pageMarkdowns[..off])[i];
  }

  /** The round trip through `DownloadMarkdownFiles`: every upload's list has
      as many entries as the upload has pages. */
  lemma RoundTripLengths(pdfs: seq<Pdf>, render: Rasterizer, pageMarkdowns: seq<string>)
    requires |pageMarkdowns| == TotalPages(pdfs, render)
    requires DottedNames(pdfs)
    requires DistinctStems(pdfs)
    ensures forall i :: 0 <= i < |pdfs| ==>
              Stem(pdfs[i].name) in Grouped(FileNames(Names(pdfs)), EchoRecords(Entries(pdfs, render), pageMarkdowns))
              && |Grouped(FileNames(Names(pdfs)), EchoRecords(Entries(pdfs, render), pageMarkdowns))[Stem(pdfs[i].name)]|
                 == |render(pdfs[i].bytes)|
  {
    var records := EchoRecords(Entries(pdfs, render), pageMarkdowns);
    var fileNames := FileNames(Names(pdfs));
    var g := Grouped(FileNames(Names(pdfs)), records);
    var pieces := PerUpload(pdfs, render, pageMarkdowns);
    forall i | 0 <= i < |pdfs|
      ensures Stem(pdfs[i].name) in g && |g[Stem(pdfs[i].name)]| == |render(pdfs[i].bytes)|
    {
      var k := Stem(pdfs[i].name);
      RoundTrip(pdfs, render, pageMarkdowns, i);
      assert fileNames[i] == k;
      assert k in fileNames;
      assert g[k] == MarkdownsFor(records, k);
      assert MarkdownsFor(records, k) == pieces[i];
    }
  }

  /** Records with the same contents, in any order, give every stem a list
      of the same length. */
  lemma {:induction false} MarkdownsForPermutedLength(a: seq<ResultRecord>, b: seq<ResultRecord>, k: string)
    requires multiset(a) == multiset(b)
    ensures |MarkdownsFor(a, k)| == |MarkdownsFor(b, k)|
    decreases |a|
  {
    if |a| == 0 {
      assert |b| == |multiset(b)| == 0;
    } else {
      var x := a[|a| - 1];
      var a' := a[..|a| - 1];
      assert a == a' + [x];
      assert x in multiset(b);
      var j :| 0 <= j < |b| && b[j] == x;
      var b' := b[..j] + b[j + 1..];
      assert b == b[..j] + [x] + b[j + 1..];
      assert multiset(a) == multiset(a') + multiset{x};
      assert multiset(b) == multiset(b[..j]) + multiset{x} + multiset(b[j + 1..]);
      assert multiset(b') == multiset(b[..j]) + multiset(b[j + 1..]);
      assert multiset(a') == multiset(a) - multiset{x};
      assert multiset(b') == multiset(b) - multiset{x};
      MarkdownsForPermutedLength(a', b', k);
      MarkdownsForConcat(a', [x], k);
      MarkdownsForConcat(b[..j] + [x], b[j + 1..], k);
      MarkdownsForConcat(b[..j], [x], k);
      MarkdownsForConcat(b[..j], b[j + 1..], k);
    }
  }

  /** The round trip whatever order the results arrive in: if the records are
      the batch's custom ids with their pages' Markdown, in any order, every
      upload still has a key whose list is as long as the upload has pages. */
  lemma RoundTripLengthsAnyOrder(pdfs: seq<Pdf>, render: Rasterizer, pageMarkdowns: seq<string>, records: seq<ResultRecord>)
    requires |pageMarkdowns| == TotalPages(pdfs, render)
    requires DottedNames(pdfs)
    requires DistinctStems(pdfs)
    requires multiset(records) == multiset(EchoRecords(Entries(pdfs, render), pageMarkdowns))
    ensures forall i :: 0 <= i < |pdfs| ==>
              Stem(pdfs[i].name) in Grouped(FileNames(Names(pdfs)), records)
              && |Grouped(FileNames(Names(pdfs)), records)[Stem(pdfs[i].name)]| == |render(pdfs[i].bytes)|
  {
    var echo := EchoRecords(Entries(pdfs, render), pageMarkdowns);
    var fileNames := FileNames(Names(pdfs));
    RoundTripLengths(pdfs, render, pageMarkdowns);
    forall i | 0 <= i < |pdfs|
      ensures Stem(pdfs[i].name) in Grouped(fileNames, records)
              && |Grouped(fileNames, records)[Stem(pdfs[i].name)]| == |render(pdfs[i].bytes)|
    {
      var k := Stem(pdfs[i].name);
      assert k in Grouped(fileNames, echo);
      MarkdownsForPermutedLength(records, echo, k);
    }
  }

  lemma {:induction false} NoRecordMatches(records: seq<ResultRecord>, k: string)
    requires forall j :: 0 <= j < |records| ==> Stem(records[j].customId) != k
    ensures MarkdownsFor(records, k) == []
    decreases |records|
  {
    if |records| > 0 {
      var init := records[..|records| - 1];
      assert forall j :: 0 <= j < |init| ==> init[j] == records[j];
      NoRecordMatches(init, k);
    }
  }

  /** An upload whose name has no `.` never receives its own pages: its custom
      ids have no `.` either, so their stem is the whole id, which is longer
      than the name. */
  lemma UndottedUploadGetsNothing(pdfName: string, images: seq<string>, start: nat, mds: seq<string>)
    requires '.' !in pdfName
    requires |mds| == |images|
    ensures MarkdownsFor(EchoRecords(DocumentEntries(pdfName, images, start), mds), Stem(pdfName)) == []
  {
    var rs := EchoRecords(DocumentEntries(pdfName, images, start), mds);
    forall j | 0 <= j < |rs| ensures Stem(rs[j].customId) != Stem(pdfName) {
      var digits := NatToString(start + j);
      var id := pdfName + "_page_" + digits;
      assert rs[j].customId == id;
      assert forall d :: 0 <= d < |digits| ==> digits[d] != '.';
      assert '.' !in "_page_";
      assert '.' !in id;
    }
    NoRecordMatches(rs, Stem(pdfName));
  }

  /** The upload names of a batch, in upload order. */
  function Names(pdfs: seq<Pdf>): seq<string> {
    seq(|pdfs|, i requires 0 <= i < |pdfs| => pdfs[i].name)
  }
}
