/**
 * The Markdown assembler of util.py: every page of an OCR response has its
 * inline image markers `![id](id)` rewritten to carry the image's base64 data,
 * and the pages are joined with a blank line between them.
 */
module MarkdownAssembler {
  import opened Strings

  datatype Option<T> = None | Some(value: T)

  /** One image the OCR service extracted from a page. */
  datatype Image = Image(id: string, imageBase64: string)

  /** One page of an OCR response: its Markdown and the images it refers to. */
  datatype Page = Page(markdown: string, images: seq<Image>)

  datatype OcrResponse = OcrResponse(pages: seq<Page>)

  /** A Python dict from image id to base64 data, as its (key, value) items in
      insertion order: `items()` iterates in that order. */
  type ImageDict = seq<(string, string)>

  /** The Markdown image reference `![alt](target)`. */
  function Marker(alt: string, target: string): (r: string)
    ensures |r| > 0
  {
    "![" + alt + "](" + target + ")"
  }

  predicate DistinctKeys(d: ImageDict) {
    forall i, j :: 0 <= i < j < |d| ==> d[i].0 != d[j].0
  }

  function KeySet(d: ImageDict): set<string> {
    set i | 0 <= i < |d| :: d[i].0
  }

  /** Python's `d.get(k)`. */
  function Get(d: ImageDict, k: string): Option<string>
    decreases |d|
  {
    if |d| == 0 then None
    else if d[0].0 == k then Some(d[0].1)
    else Get(d[1..], k)
  }

  /** Python's `d[k] = v`: an existing key keeps its position and takes the
      new value, a new key is appended. */
  function Put(d: ImageDict, k: string, v: string): ImageDict
    decreases |d|
  {
    if |d| == 0 then [(k, v)]
    else if d[0].0 == k then [(k, v)] + d[1..]
    else [d[0]] + Put(d[1..], k, v)
  }

  /** The dict `image_data` built from a page's images, one assignment per image. */
  function ImageData(images: seq<Image>): ImageDict
    decreases |images|
  {
    if |images| == 0 then []
    else
      var last := images[|images| - 1];
      Put(ImageData(images[..|images| - 1]), last.id, last.imageBase64)
  }

  /** The base64 data of the last image with id `k`, if there is one. */
  function LastImage(images: seq<Image>, k: string): Option<string>
    decreases |images|
  {
    if |images| == 0 then None
    else if images[|images| - 1].id == k then Some(images[|images| - 1].imageBase64)
    else LastImage(images[..|images| - 1], k)
  }

  /** The text after the substitution loop has run over all items of `d`. */
  function ReplaceImages(s: string, d: ImageDict): string
    decreases |d|
  {
    if |d| == 0 then s
    else
      var (id, data) := d[|d| - 1];
      ReplaceAll(ReplaceImages(s, d[..|d| - 1]), Marker(id, id), Marker(id, data))
  }

  /** A page's Markdown with its own images substituted. */
  function PageMarkdown(page: Page): string {
    ReplaceImages(page.markdown, ImageData(page.images))
  }

  function PageMarkdowns(pages: seq<Page>): (r: seq<string>)
    ensures |r| == |pages|
    ensures forall i :: 0 <= i < |pages| ==> r[i] == PageMarkdown(pages[i])
    decreases |pages|
  {
    if |pages| == 0 then []
    else PageMarkdowns(pages[..|pages| - 1]) + [PageMarkdown(pages[|pages| - 1])]
  }

  /** The whole combined document: substituted pages, blank line between. */
  function Combined(pages: seq<Page>): string {
    Join(PageMarkdowns(pages), "\n\n")
  }

  // ---------------------------------------------------------------------
  // The two procedures

  /** `replace_images_in_markdown`: one `str.replace` per dict item, in dict order. */
  method ReplaceImagesInMarkdown(markdownStr: string, imagesDict: ImageDict) returns (r: string)
    ensures r == ReplaceImages(markdownStr, imagesDict)
    ensures |imagesDict| == 0 ==> r == markdownStr
    ensures (forall i :: 0 <= i < |imagesDict| ==>
               !Occurs(markdownStr, Marker(imagesDict[i].0, imagesDict[i].0))) ==> r == markdownStr
  {
    r := markdownStr;
    for i := 0 to |imagesDict|
      invariant r == ReplaceImages(markdownStr, imagesDict[..i])
    {
      var (imgName, base64Str) := imagesDict[i];
      r := ReplaceAll(r, Marker(imgName, imgName), Marker(imgName, base64Str));
      assert imagesDict[..i + 1][..i] == imagesDict[..i];
    }
    assert imagesDict[..|imagesDict|] == imagesDict;
    UnmarkedTextUnchanged(markdownStr, imagesDict);
  }

  /** `get_combined_markdown`: each page substituted with a dict rebuilt from
      that page's images only, then all pages joined with `"\n\n"`. */
  method GetCombinedMarkdown(ocrResponse: OcrResponse) returns (r: string)
    ensures r == Join(PageMarkdowns(ocrResponse.pages), "\n\n")
    ensures |ocrResponse.pages| == 0 ==> r == ""
    ensures |ocrResponse.pages| == 1 ==> r == PageMarkdown(ocrResponse.pages[0])
  {
    var pages := ocrResponse.pages;
    var markdowns: seq<string> := [];
    for i := 0 to |pages|
      invariant markdowns == PageMarkdowns(pages[..i])
    {
      var page := pages[i];
      var imageData: ImageDict := [];
      for j := 0 to |page.images|
        invariant imageData == ImageData(page.images[..j])
      {
        var img := page.images[j];
        imageData := Put(imageData, img.id, img.imageBase64);
        assert page.images[..j + 1][..j] == page.images[..j];
      }
      assert page.images[..|page.images|] == page.images;
      var md := ReplaceImagesInMarkdown(page.markdown, imageData);
      markdowns := markdowns + [md];
      assert pages[..i + 1][..i] == pages[..i];
    }
    assert pages[..|pages|] == pages;
    r := Join(markdowns, "\n\n");
  }

  // ---------------------------------------------------------------------
  // Properties

  /** Text with no `![id](id)` marker for any key of the dict comes back unchanged. */
  lemma {:induction false} UnmarkedTextUnchanged(s: string, d: ImageDict)
    ensures (forall i :: 0 <= i < |d| ==> !Occurs(s, Marker(d[i].0, d[i].0))) ==> ReplaceImages(s, d) == s
    decreases |d|
  {
    if |d| > 0 && forall i :: 0 <= i < |d| ==> !Occurs(s, Marker(d[i].0, d[i].0)) {
      var init := d[..|d| - 1];
      assert forall i :: 0 <= i < |init| ==> init[i] == d[i];
      UnmarkedTextUnchanged(s, init);
      var (id, data) := d[|d| - 1];
      assert !Occurs(s, Marker(id, id));
      ReplaceAbsent(s, Marker(id, id), Marker(id, data));
    }
  }

  /** The pass for item `i` cuts the text at every `![id](id)`, so that no
      piece keeps one, and puts `![id](data)` in each cut, keeping everything
      between the cuts. */
  lemma SubstitutesEveryMarker(s: string, d: ImageDict, i: nat)
    requires i < |d|
    ensures ReplaceImages(s, d[..i + 1])
         == Join(Split(ReplaceImages(s, d[..i]), Marker(d[i].0, d[i].0)), Marker(d[i].0, d[i].1))
    ensures ReplaceImages(s, d[..i])
         == Join(Split(ReplaceImages(s, d[..i]), Marker(d[i].0, d[i].0)), Marker(d[i].0, d[i].0))
    ensures forall k :: 0 <= k < |Split(ReplaceImages(s, d[..i]), Marker(d[i].0, d[i].0))| ==>
              !Occurs(Split(ReplaceImages(s, d[..i]), Marker(d[i].0, d[i].0))[k], Marker(d[i].0, d[i].0))
  {
    assert d[..i + 1][..i] == d[..i];
    var t := ReplaceImages(s, d[..i]);
    ReplaceIsJoinOfSplit(t, Marker(d[i].0, d[i].0), Marker(d[i].0, d[i].1));
    JoinSplit(t, Marker(d[i].0, d[i].0));
    SplitPiecesFree(t, Marker(d[i].0, d[i].0));
  }

  lemma {:induction false} GetPut(d: ImageDict, k: string, v: string, k': string)
    ensures Get(Put(d, k, v), k') == if k' == k then Some(v) else Get(d, k')
    decreases |d|
  {
    if |d| > 0 && d[0].0 != k {
      GetPut(d[1..], k, v, k');
    }
  }

  lemma KeySetCons(x: (string, string), d: ImageDict)
    ensures KeySet([x] + d) == {x.0} + KeySet(d)
  {
    var c := [x] + d;
    forall k | k in KeySet(c) ensures k in {x.0} + KeySet(d) {
      var i :| 0 <= i < |c| && c[i].0 == k;
      if i > 0 { assert d[i - 1].0 == k; }
    }
    forall k | k in KeySet(d) ensures k in KeySet(c) {
      var i :| 0 <= i < |d| && d[i].0 == k;
      assert c[i + 1].0 == k;
    }
    assert c[0].0 == x.0;
  }

  lemma {:induction false} PutKeys(d: ImageDict, k: string, v: string)
    requires DistinctKeys(d)
    ensures DistinctKeys(Put(d, k, v))
    ensures KeySet(Put(d, k, v)) == KeySet(d) + {k}
    decreases |d|
  {
    var r := Put(d, k, v);
    if |d| == 0 {
      assert r == [(k, v)];
      KeySetCons((k, v), []);
    } else {
      assert d == [d[0]] + d[1..];
      KeySetCons(d[0], d[1..]);
      assert DistinctKeys(d[1..]) by {
        assert forall i :: 0 <= i < |d[1..]| ==> d[1..][i] == d[i + 1];
      }
      assert d[0].0 !in KeySet(d[1..]) by {
        assert forall i :: 0 <= i < |d[1..]| ==> d[1..][i] == d[i + 1];
      }
      if d[0].0 != k {
        PutKeys(d[1..], k, v);
        assert r == [d[0]] + Put(d[1..], k, v);
        KeySetCons(d[0], Put(d[1..], k, v));
        assert forall i :: 0 < i < |r| ==> r[i] == Put(d[1..], k, v)[i - 1];
      } else {
        assert r == [(k, v)] + d[1..];
        KeySetCons((k, v), d[1..]);
        assert forall i :: 0 <= i < |r| ==> r[i].0 == d[i].0;
      }
    }
  }

  /** The dict built from a page's images has each id once, and maps it to
      the data of the last image carrying that id. */
  lemma {:induction false} ImageDataLookup(images: seq<Image>)
    ensures DistinctKeys(ImageData(images))
    ensures forall k :: Get(ImageData(images), k) == LastImage(images, k)
    decreases |images|
  {
    if |images| > 0 {
      var init := images[..|images| - 1];
      var last := images[|images| - 1];
      ImageDataLookup(init);
      PutKeys(ImageData(init), last.id, last.imageBase64);
      forall k ensures Get(ImageData(images), k) == LastImage(images, k) {
        GetPut(ImageData(init), last.id, last.imageBase64, k);
      }
    }
  }

  /** The combined document is the first `i` pages' document, a blank line,
      and the remaining pages' document: pages stay in order. */
  lemma CombinedSplitsBetweenPages(pages: seq<Page>, i: nat)
    requires 0 < i < |pages|
    ensures Combined(pages) == Combined(pages[..i]) + "\n\n" + Combined(pages[i..])
  {
    var all := PageMarkdowns(pages);
    assert all == PageMarkdowns(pages[..i]) + PageMarkdowns(pages[i..]);
    JoinConcat(PageMarkdowns(pages[..i]), PageMarkdowns(pages[i..]), "\n\n");
  }
}
