/** The widgets of the product-detail page, each reduced to the fields its
    handler reads and writes: the quantity selector, the save (heart) button,
    the read-more description, the document title, and the ids of the
    thumbnail and slider images. */
module ProductDetails {
  import opened Text
  import opened Catalog

  // ---------------------------------------------------------------------
  // Quantity selector

  /** The count shown in the read-only input and whether the decrement
      button is disabled. */
  datatype Counter = Counter(count: int, decrementDisabled: bool)

  /** The markup starts the count at 1 with the decrement button disabled. */
  const InitialCounter := Counter(1, true)

  /** `updateCount`: one up or one down, then the decrement button is disabled
      exactly when the count has reached 1. */
  function UpdateCount(c: Counter, increment: bool): (r: Counter)
    ensures r.count == if increment then c.count + 1 else c.count - 1
    ensures r.decrementDisabled <==> r.count == 1
  {
    var n := if increment then c.count + 1 else c.count - 1;
    Counter(n, n == 1)
  }

  /** A click on one of the two buttons; a disabled button fires no click. */
  function CounterClick(c: Counter, increment: bool): (r: Counter)
    ensures !increment && c.decrementDisabled ==> r == c
    ensures CounterValid(c) ==> CounterValid(r)
    ensures CounterValid(c) ==> r.count == if increment then c.count + 1 else if c.count == 1 then 1 else c.count - 1
  {
    if !increment && c.decrementDisabled then c else UpdateCount(c, increment)
  }

  function CounterClicks(c: Counter, clicks: seq<bool>): Counter
    decreases |clicks|
  {
    if |clicks| == 0 then c else CounterClicks(CounterClick(c, clicks[0]), clicks[1..])
  }

  /** The count is positive and the decrement button is disabled exactly at 1. */
  predicate CounterValid(c: Counter) {
    c.count >= 1 && (c.decrementDisabled <==> c.count == 1)
  }

  /** Whatever the user clicks, the count never drops below 1 and the
      decrement button is disabled exactly when it is 1. */
  lemma {:induction false} CounterClicksValid(c: Counter, clicks: seq<bool>)
    requires CounterValid(c)
    ensures CounterValid(CounterClicks(c, clicks))
    decreases |clicks|
  {
    if |clicks| > 0 {
      CounterClicksValid(CounterClick(c, clicks[0]), clicks[1..]);
    }
  }

  lemma CounterFromMarkup(clicks: seq<bool>)
    ensures CounterValid(CounterClicks(InitialCounter, clicks))
  {
    CounterClicksValid(InitialCounter, clicks);
  }

  /** An increment followed by a decrement restores the count, and, from any
      valid state, the whole selector. */
  lemma IncrementDecrement(c: Counter)
    ensures UpdateCount(UpdateCount(c, true), false).count == c.count
    ensures CounterValid(c) ==> CounterClick(CounterClick(c, true), false) == c
  {
  }

  // ---------------------------------------------------------------------
  // Save button

  /** Whether the item is saved, and the icon style the button shows. */
  datatype HeartButton = HeartButton(active: bool, icon: string)

  function HeartIcon(active: bool): string {
    if active then "fa-solid" else "fa-regular"
  }

  /** Not saved, with the outlined icon of the markup. */
  const InitialHeart := HeartButton(false, "fa-regular")

  /** `toggleHeart`'s click handler: flip the flag and redraw the icon. */
  function ToggleHeart(h: HeartButton): (r: HeartButton)
    ensures r.active == !h.active
    ensures r.icon == HeartIcon(r.active)
  {
    var active := !h.active;
    HeartButton(active, HeartIcon(active))
  }

  /** Two clicks give back the state of a button whose icon matches its flag,
      as the initial one does. */
  lemma ToggleHeartInvolution(h: HeartButton)
    requires h.icon == HeartIcon(h.active)
    ensures ToggleHeart(ToggleHeart(h)) == h
  {
  }

  // ---------------------------------------------------------------------
  // Read-more description

  /** The number of characters shown before the "..." marker. */
  const ReadMoreLimit := 122

  /** `renderMoreText`'s split of the description into the part always shown
      and the part behind "Read more". */
  function SplitDescription(str: string): (parts: (string, string))
    ensures parts.0 + parts.1 == str
    ensures |parts.0| == if |str| < ReadMoreLimit then |str| else ReadMoreLimit
    ensures |str| <= ReadMoreLimit ==> parts.1 == ""
  {
    var part1 := if |str| > ReadMoreLimit then str[..ReadMoreLimit] else str;
    var part2 := if |str| > ReadMoreLimit then str[ReadMoreLimit..] else "";
    (part1, part2)
  }

  /** The inline `display` styles of the dots and of the hidden text, and the
      link's label. */
  datatype ReadMore = ReadMore(dotsDisplay: string, moreDisplay: string, linkText: string)

  /** As rendered: the dots carry no inline style (so they show), the extra
      text is hidden, the link reads "Read more". */
  const InitialReadMore := ReadMore("", "none", "Read more")

  predicate DotsShown(s: ReadMore) { s.dotsDisplay != "none" }
  predicate MoreShown(s: ReadMore) { s.moreDisplay != "none" }

  /** The dots are hidden exactly when the extra text shows, exactly when
      the link reads "Read less". */
  predicate ReadMoreCoherent(s: ReadMore) {
    && (DotsShown(s) <==> !MoreShown(s))
    && (MoreShown(s) <==> s.linkText == "Read less")
  }

  /** The link's click handler: hidden dots mean the text is expanded, so it
      collapses; otherwise it expands. */
  function ReadMoreClick(s: ReadMore): (r: ReadMore)
    ensures ReadMoreCoherent(r)
    ensures DotsShown(r) <==> !DotsShown(s)
  {
    if s.dotsDisplay == "none" then ReadMore("inline", "none", "Read more")
    else ReadMore("none", "inline", "Read less")
  }

  function ReadMoreClicks(s: ReadMore, n: nat): ReadMore
    decreases n
  {
    if n == 0 then s else ReadMoreClicks(ReadMoreClick(s), n - 1)
  }

  /** Every state the link can reach is coherent, and after `n` clicks the
      text is expanded exactly when `n` is odd. */
  lemma {:induction false} ReadMoreReachable(n: nat)
    ensures ReadMoreCoherent(ReadMoreClicks(InitialReadMore, n))
    ensures MoreShown(ReadMoreClicks(InitialReadMore, n)) <==> n % 2 == 1
  {
    ReadMoreClicksFrom(InitialReadMore, n);
  }

  lemma {:induction false} ReadMoreClicksFrom(s: ReadMore, n: nat)
    requires ReadMoreCoherent(s)
    ensures ReadMoreCoherent(ReadMoreClicks(s, n))
    ensures MoreShown(ReadMoreClicks(s, n)) <==> (MoreShown(s) <==> n % 2 == 0)
    decreases n
  {
    if n > 0 {
      ReadMoreClicksFrom(ReadMoreClick(s), n - 1);
    }
  }

  /** Two clicks restore any state a click has produced. From the initial
      state they restore what is shown, though the dots then carry an
      explicit "inline" style instead of none. */
  lemma ReadMoreTwice(s: ReadMore)
    ensures ReadMoreClick(ReadMoreClick(ReadMoreClick(s))) == ReadMoreClick(s)
    ensures var r := ReadMoreClick(ReadMoreClick(InitialReadMore));
      && DotsShown(r) == DotsShown(InitialReadMore)
      && MoreShown(r) == MoreShown(InitialReadMore)
      && r.linkText == InitialReadMore.linkText
      && r != InitialReadMore
  {
  }

  // ---------------------------------------------------------------------
  // Document title

  /** `setPageTitle`: the old title up to its first "|", then " | " and the
      product's title. `docTitle` is the value the `document.title` getter
      returns, and the result is the text assigned to it. */
  function SetPageTitle(docTitle: string, title: string): (r: string)
    ensures BeforeFirst(r, '|') == BeforeFirst(docTitle, '|') + " "
    ensures r == BeforeFirst(r, '|') + "| " + title
  {
    var prefix := BeforeFirst(docTitle, '|');
    var r := prefix + " | " + title;
    TitlePrefix(prefix, title);
    r
  }

  lemma TitlePrefix(prefix: string, title: string)
    requires '|' !in prefix
    ensures BeforeFirst(prefix + " | " + title, '|') == prefix + " "
  {
    var r := prefix + " | " + title;
    var p := prefix + " ";
    assert r == p + "| " + title;
    assert p <= r;
    assert r[|p|] == '|';
    BeforeFirstUnique(r, '|', p);
  }

  /** The text a call assigns is not a fixed point of the title computation:
      fed back in unchanged, it gains one more space before the "|". */
  lemma SetPageTitleRawTwice(docTitle: string, title: string)
    ensures |SetPageTitle(SetPageTitle(docTitle, title), title)| == |SetPageTitle(docTitle, title)| + 1
    ensures SetPageTitle(SetPageTitle(docTitle, title), title) != SetPageTitle(docTitle, title)
  {
  }

  // ---------------------------------------------------------------------
  // Gallery

  /** The number of thumbnails and of slider images. */
  const GallerySize := 5

  /** A thumbnail link: its `data-thumid`, the image and its alternative text. */
  datatype Thumbnail = Thumbnail(thumbId: int, image: string, alt: string)

  /** A slider image: its `data-id`, the image and its alternative text. */
  datatype Slide = Slide(dataId: int, image: string, alt: string)

  /** `generateThumbnails`: five links numbered 1 to 5, all showing the product image. */
  function Thumbnails(p: Product): (r: seq<Thumbnail>)
    ensures |r| == GallerySize
    ensures forall i | 0 <= i < |r| :: r[i].thumbId == i + 1 && r[i].image == p.image && r[i].alt == p.title
  {
    seq(GallerySize, i requires 0 <= i < GallerySize => Thumbnail(i + 1, p.image, p.title))
  }

  /** `generateImages`: five slider images numbered 1 to 5. */
  function Slides(p: Product): (r: seq<Slide>)
    ensures |r| == GallerySize
    ensures forall i | 0 <= i < |r| :: r[i].dataId == i + 1 && r[i].image == p.image && r[i].alt == p.title
  {
    seq(GallerySize, i requires 0 <= i < GallerySize => Slide(i + 1, p.image, p.title))
  }

  /** `slideImage(id)` shifts the slider by `id - 1` image widths. */
  function SlideOffset(thumbId: int): int {
    thumbId - 1
  }

  /** Every thumbnail shifts the slider to the slide carrying its own number,
      and that slide exists. */
  lemma ThumbnailShowsItsSlide(p: Product, i: int)
    requires 0 <= i < GallerySize
    ensures var t := Thumbnails(p)[i];
      && 0 <= SlideOffset(t.thumbId) < |Slides(p)|
      && Slides(p)[SlideOffset(t.thumbId)].dataId == t.thumbId
      && Slides(p)[SlideOffset(t.thumbId)].image == t.image
  {
  }

  /** The thumbnail and slide ids are exactly 1, 2, 3, 4, 5 in order. */
  lemma GalleryIds(p: Product)
    ensures seq(GallerySize, i requires 0 <= i < GallerySize => Thumbnails(p)[i].thumbId) == [1, 2, 3, 4, 5]
    ensures seq(GallerySize, i requires 0 <= i < GallerySize => Slides(p)[i].dataId) == [1, 2, 3, 4, 5]
  {
  }
}
