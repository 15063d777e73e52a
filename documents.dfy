/** Document composition: copy every page of a PDF into a new writer, build a
    one-page overlay of draw instructions and merge it onto one page.

    A PDF is modelled by its page list (`Blob.PdfFile`), so reading the bytes
    and writing them back are the identity; `Blob.Empty` stands for an empty
    byte string, which the PDF reader refuses. A page is its size and its
    content, a list of draw instructions painted in order: merging an overlay
    appends the overlay's instructions after the page's own, which is what
    paints the overlay on top. */
module Documents {
  import opened Outcomes

  newtype byte = x: int | 0 <= x < 256

  /** The raster image base64-decoded from a data-URI payload. The decoding
      itself belongs to a library and is kept symbolic. */
  datatype Image = FromBase64(payload: string)

  datatype Draw =
    | Text(x: int, y: int, text: string)
    | Picture(x: int, y: int, width: int, height: int, image: Image)
    | Native(data: seq<byte>)   // content of an uploaded page, not interpreted here

  datatype Page = Page(width: int, height: int, content: seq<Draw>)

  datatype Blob = Empty | PdfFile(pages: seq<Page>)

  /** Which page of the copy receives the overlay: index 0 when personalizing,
      index -1 (the last page) when signing. */
  datatype Target = FirstPage | LastPage

  /** The US letter page size, in points, of every overlay canvas. */
  const LetterWidth := 612
  const LetterHeight := 792

  /** Composites `overlay` on top of `target`: the target keeps its size and
      its own content, which is painted first. */
  function Merge(target: Page, overlay: Page): (merged: Page)
    ensures merged.width == target.width && merged.height == target.height
    ensures |merged.content| == |target.content| + |overlay.content|
    ensures merged.content[..|target.content|] == target.content
    ensures merged.content[|target.content|..] == overlay.content
  {
    target.(content := target.content + overlay.content)
  }

  /** A fresh letter-sized canvas holding the given instructions. */
  function OverlayPage(draws: seq<Draw>): Page
  {
    Page(LetterWidth, LetterHeight, draws)
  }

  /** The overlay of a personalized contract: a letter-sized canvas with two
      text lines at the left margin, the name line above the address line. */
  function RecipientOverlay(name: string, address: string): (overlay: Page)
    ensures overlay.width == LetterWidth && overlay.height == LetterHeight
    ensures |overlay.content| == 2
    ensures forall d :: d in overlay.content ==> d.Text? && d.x == 100
    ensures overlay.content[0].y > overlay.content[1].y
    ensures |overlay.content[0].text| >= |"Name: "| && overlay.content[0].text[|"Name: "|..] == name
    ensures |overlay.content[1].text| >= |"Address: "| && overlay.content[1].text[|"Address: "|..] == address
  {
    OverlayPage([Text(100, 700, "Name: " + name), Text(100, 680, "Address: " + address)])
  }

  /** The overlay of a signed contract: the signature image, inside the
      page, and the signing time on a line just beneath it. */
  function SignatureOverlay(signature: Image, timestamp: string): (overlay: Page)
    ensures overlay.width == LetterWidth && overlay.height == LetterHeight
    ensures |overlay.content| == 2
    ensures overlay.content[0].Picture? && overlay.content[0].image == signature
    ensures var p := overlay.content[0];
            0 <= p.x && p.x + p.width <= LetterWidth && 0 <= p.y && p.y + p.height <= LetterHeight
    ensures overlay.content[1].Text? && overlay.content[1].y < overlay.content[0].y
    ensures |overlay.content[1].text| >= |"Signed on "| && overlay.content[1].text[|"Signed on "|..] == timestamp
  {
    OverlayPage([Picture(100, 100, 200, 100, signature), Text(100, 90, "Signed on " + timestamp)])
  }

  /** The index a Python subscript 0 or -1 selects in a list of `pageCount` pages. */
  function TargetIndex(pageCount: nat, target: Target): (k: nat)
    requires pageCount > 0
    ensures k < pageCount
    ensures target == FirstPage ==> k == 0
    ensures target == LastPage ==> k == pageCount - 1
  {
    match target
    case FirstPage => 0
    case LastPage => pageCount - 1
  }

  /** `out` is `src` with `overlay` merged onto page `k` and every other page as it was. */
  predicate MergedOnto(src: seq<Page>, out: seq<Page>, k: nat, overlay: Page)
  {
    && |out| == |src|
    && k < |src|
    && out[k] == Merge(src[k], overlay)
    && forall i :: 0 <= i < |src| && i != k ==> out[i] == src[i]
  }

  /** The page list a composition produces. */
  function Stamped(pages: seq<Page>, target: Target, overlay: Page): (out: seq<Page>)
    requires pages != []
    ensures MergedOnto(pages, out, TargetIndex(|pages|, target), overlay)
  {
    var k := TargetIndex(|pages|, target);
    pages[k := Merge(pages[k], overlay)]
  }

  /** Copies every page, in order, into a new writer. */
  method CopyPages(pages: seq<Page>) returns (writer: seq<Page>)
    ensures writer == pages
  {
    writer := [];
    for i := 0 to |pages|
      invariant writer == pages[..i]
    {
      writer := writer + [pages[i]];
    }
  }

  /** Copies the pages and merges the overlay onto the target page of the
      copy; with no page to index, the subscript fails. */
  method Compose(pages: seq<Page>, target: Target, overlay: Page) returns (r: Result<seq<Page>>)
    ensures pages == [] ==> r == Failure(EmptyDocument)
    ensures pages != [] ==> r.Success? && MergedOnto(pages, r.value, TargetIndex(|pages|, target), overlay)
  {
    var writer := CopyPages(pages);
    if |writer| == 0 {
      return Failure(EmptyDocument);
    }
    var k := if target == FirstPage then 0 else |writer| - 1;
    writer := writer[k := Merge(writer[k], overlay)];
    return Success(writer);
  }

  /** Fills a template: the recipient overlay goes onto the first page. */
  method Personalize(template: Blob, name: string, address: string) returns (r: Result<Blob>)
    ensures template == Empty ==> r == Failure(CorruptDocument)
    ensures template == PdfFile([]) ==> r == Failure(EmptyDocument)
    ensures template.PdfFile? && template.pages != [] ==>
              r == Success(PdfFile(Stamped(template.pages, FirstPage, RecipientOverlay(name, address))))
  {
    if template.Empty? {
      return Failure(CorruptDocument);
    }
    var composed := Compose(template.pages, FirstPage, RecipientOverlay(name, address));
    if composed.Failure? {
      return Failure(composed.error);
    }
    SameMergeIsStamped(template.pages, composed.value, FirstPage, RecipientOverlay(name, address));
    return Success(PdfFile(composed.value));
  }

  /** Signs a generated contract: the signature overlay goes onto the last page. */
  method Sign(generated: Blob, signature: Image, timestamp: string) returns (r: Result<Blob>)
    ensures generated == Empty ==> r == Failure(CorruptDocument)
    ensures generated == PdfFile([]) ==> r == Failure(EmptyDocument)
    ensures generated.PdfFile? && generated.pages != [] ==>
              r == Success(PdfFile(Stamped(generated.pages, LastPage, SignatureOverlay(signature, timestamp))))
  {
    if generated.Empty? {
      return Failure(CorruptDocument);
    }
    var composed := Compose(generated.pages, LastPage, SignatureOverlay(signature, timestamp));
    if composed.Failure? {
      return Failure(composed.error);
    }
    SameMergeIsStamped(generated.pages, composed.value, LastPage, SignatureOverlay(signature, timestamp));
    return Success(PdfFile(composed.value));
  }

  /** `MergedOnto` determines the composed pages: any page list it accepts is `Stamped`. */
  lemma SameMergeIsStamped(pages: seq<Page>, out: seq<Page>, target: Target, overlay: Page)
    requires pages != []
    requires MergedOnto(pages, out, TargetIndex(|pages|, target), overlay)
    ensures out == Stamped(pages, target, overlay)
  {
  }

  /** A personalized contract keeps the template's page count, shows the
      recipient's name and address on its first page above the template's
      own content, and leaves every later page as it was. */
  lemma PersonalizedShowsRecipient(pages: seq<Page>, name: string, address: string)
    requires pages != []
    ensures var out := Stamped(pages, FirstPage, RecipientOverlay(name, address));
            && |out| == |pages|
            && out[0].content == pages[0].content + [Text(100, 700, "Name: " + name), Text(100, 680, "Address: " + address)]
            && (out[0].width, out[0].height) == (pages[0].width, pages[0].height)
            && out[1..] == pages[1..]
  {
  }

  /** A signed contract keeps the page count, shows the signature image and
      "Signed on" line on its last page above that page's own content, and
      leaves every earlier page as it was. */
  lemma SignedShowsSignature(pages: seq<Page>, signature: Image, timestamp: string)
    requires pages != []
    ensures var out := Stamped(pages, LastPage, SignatureOverlay(signature, timestamp));
            var last := |pages| - 1;
            && |out| == |pages|
            && out[last].content == pages[last].content + [Picture(100, 100, 200, 100, signature), Text(100, 90, "Signed on " + timestamp)]
            && (out[last].width, out[last].height) == (pages[last].width, pages[last].height)
            && out[..last] == pages[..last]
  {
  }

  /** On a one-page contract the signature is painted on the same page as the
      recipient overlay, on top of it; on a longer one the two overlays land on
      different pages. */
  lemma SignAfterPersonalize(pages: seq<Page>, name: string, address: string, signature: Image, timestamp: string)
    requires pages != []
    ensures var filled := Stamped(pages, FirstPage, RecipientOverlay(name, address));
            var signed := Stamped(filled, LastPage, SignatureOverlay(signature, timestamp));
            && |signed| == |pages|
            && (|pages| == 1 ==> signed[0].content == pages[0].content + RecipientOverlay(name, address).content
                                                     + SignatureOverlay(signature, timestamp).content)
            && (|pages| > 1 ==> signed[0] == filled[0] && signed[|pages| - 1] == Merge(pages[|pages| - 1], SignatureOverlay(signature, timestamp)))
  {
  }
}
