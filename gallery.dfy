/**
 * The gallery page (src/js/gallery.js): category filtering of the gallery items, the
 * filter buttons' pressed state, and the lightbox with its cursor `currentImageIndex`
 * moving over the filtered items with wrap-around, driven by buttons, keys and swipes.
 */
module Galleries {
  import opened Wrappers

  /** What the lightbox reads from the image inside a gallery item. */
  datatype Picture = Picture(
    src: string,                      // the img element's src
    fullSrc: Option<string>,          // data-full-src
    alt: string,
    title: Option<string>,            // text of the overlay's h3, when there is one
    overlayCaption: Option<string>,   // text of the overlay's p, when there is one
    dataCaption: Option<string>)      // data-caption

  /** A gallery item: its data-category and whether the filter hid it (class "hidden", display none). */
  datatype Item = Item(category: Option<string>, hidden: bool, picture: Picture)

  /** A filter button: its data-filter, the "active" class and aria-pressed. */
  datatype Button = Button(filter: Option<string>, active: bool, pressed: bool)

  /** The counter text "<shown> of <total>". */
  datatype Counter = Counter(shown: int, total: int)

  /** What the lightbox displays. */
  datatype View = View(src: string, alt: string, title: string, caption: string, counter: Option<Counter>)

  /** The lightbox element once created: hidden or shown, and what it displays. */
  datatype Lightbox = Lightbox(hidden: bool, view: View)

  const AllFilter: Option<string> := Some("all")

  /** The rule of filterImages and updateFilteredItems: filter "all", or a category equal to the filter. */
  predicate Shows(filter: Option<string>, category: Option<string>) {
    filter == AllFilter || category == filter
  }

  function Categories(items: seq<Item>): (cs: seq<Option<string>>)
    ensures |cs| == |items| && forall i :: 0 <= i < |items| ==> cs[i] == items[i].category
  {
    if items == [] then [] else [items[0].category] + Categories(items[1..])
  }

  /** Indices strictly increasing: an order-preserving choice of items. */
  predicate Increasing(s: seq<nat>) {
    forall a, b :: 0 <= a < b < |s| ==> s[a] < s[b]
  }

  /**
   * updateFilteredItems: the indices, from lo on and in order, of the items whose category
   * the filter shows.
   */
  function MatchingFrom(cats: seq<Option<string>>, filter: Option<string>, lo: nat): (r: seq<nat>)
    requires lo <= |cats|
    ensures Increasing(r)
    ensures forall k :: 0 <= k < |r| ==> lo <= r[k] < |cats|
    ensures forall i :: lo <= i < |cats| ==> (i in r <==> Shows(filter, cats[i]))
    decreases |cats| - lo
  {
    if lo == |cats| then []
    else
      var rest := MatchingFrom(cats, filter, lo + 1);
      if Shows(filter, cats[lo]) then [lo] + rest else rest
  }

  function Matching(cats: seq<Option<string>>, filter: Option<string>): (r: seq<nat>)
    ensures Increasing(r) && forall k :: 0 <= k < |r| ==> r[k] < |cats|
    ensures forall i :: 0 <= i < |cats| ==> (i in r <==> Shows(filter, cats[i]))
  {
    MatchingFrom(cats, filter, 0)
  }

  /** lo, lo+1, ..., n-1. */
  function RangeFrom(lo: nat, n: nat): (r: seq<nat>)
    requires lo <= n
    ensures |r| == n - lo && forall k :: 0 <= k < |r| ==> r[k] == lo + k
    decreases n - lo
  {
    if lo == n then [] else [lo] + RangeFrom(lo + 1, n)
  }

  /** 0, 1, ..., n-1: Array.from(galleryItems) as indices. */
  function Range(n: nat): seq<nat> {
    RangeFrom(0, n)
  }

  lemma {:induction false} AllShowsEverythingFrom(cats: seq<Option<string>>, lo: nat)
    requires lo <= |cats|
    ensures MatchingFrom(cats, AllFilter, lo) == RangeFrom(lo, |cats|)
    decreases |cats| - lo
  {
    if lo < |cats| {
      AllShowsEverythingFrom(cats, lo + 1);
    }
  }

  /** With the filter "all" the filtered list is every item, in order (as on page load). */
  lemma AllShowsEverything(cats: seq<Option<string>>)
    ensures Matching(cats, AllFilter) == Range(|cats|)
  {
    AllShowsEverythingFrom(cats, 0);
  }

  /** nextImage's target: one on, from the last back to 0. */
  function NextIndex(current: int, n: int): (r: int)
    ensures 0 <= current < n ==> r == (current + 1) % n
  {
    if current < n - 1 then current + 1 else 0
  }

  /** previousImage's target: one back, from 0 to the last. */
  function PrevIndex(current: int, n: int): (r: int)
    ensures 0 <= current < n ==> r == (current + n - 1) % n
  {
    if current > 0 then current - 1 else n - 1
  }

  /** On a valid cursor, previous undoes next and next undoes previous, and both stay in range. */
  lemma NextPrevInverse(current: int, n: int)
    requires 0 <= current < n
    ensures 0 <= NextIndex(current, n) < n && 0 <= PrevIndex(current, n) < n
    ensures PrevIndex(NextIndex(current, n), n) == current
    ensures NextIndex(PrevIndex(current, n), n) == current
  {
  }

  /** k presses of "next" from the cursor. */
  function NextTimes(current: int, n: int, k: nat): int {
    if k == 0 then current else NextIndex(NextTimes(current, n, k - 1), n)
  }

  /**
   * "next" cycles: up to n presses move the cursor that many places round the list, so n
   * presses bring it back where it was.
   */
  lemma {:induction false} NextCycles(current: int, n: int, k: nat)
    requires 0 <= current < n && k <= n
    ensures NextTimes(current, n, k) == if current + k < n then current + k else current + k - n
    ensures k == n ==> NextTimes(current, n, k) == current
  {
    if k > 0 {
      NextCycles(current, n, k - 1);
    }
  }

  /** A swipe navigates or not. */
  datatype Swipe = NoSwipe | SwipeNext | SwipePrevious

  function Abs(x: real): real {
    if x < 0.0 then -x else x
  }

  /**
   * The touchend rule: with diffX = startX - endX and diffY = startY - endY, a swipe is
   * horizontal and long enough when |diffX| > |diffY| and |diffX| > 50; a leftward swipe
   * (diffX > 0) shows the next image, a rightward one the previous.
   */
  function ClassifySwipe(startX: real, startY: real, endX: real, endY: real): (r: Swipe)
    ensures r == SwipeNext ==> endX < startX - 50.0 && Abs(startY - endY) < startX - endX
    ensures r == SwipePrevious ==> endX > startX + 50.0 && Abs(startY - endY) < endX - startX
    ensures r == NoSwipe <==> Abs(startX - endX) <= 50.0 || Abs(startX - endX) <= Abs(startY - endY)
  {
    var diffX, diffY := startX - endX, startY - endY;
    if Abs(diffX) > Abs(diffY) && Abs(diffX) > 50.0 then
      (if diffX > 0.0 then SwipeNext else SwipePrevious)
    else NoSwipe
  }

  /** The same gesture run backwards navigates the other way, and short or steep ones never navigate. */
  lemma SwipeReversed(startX: real, startY: real, endX: real, endY: real)
    ensures ClassifySwipe(endX, endY, startX, startY) ==
      match ClassifySwipe(startX, startY, endX, endY)
      case NoSwipe => NoSwipe
      case SwipeNext => SwipePrevious
      case SwipePrevious => SwipeNext
    ensures Abs(startX - endX) <= 50.0 ==> ClassifySwipe(startX, startY, endX, endY) == NoSwipe
    ensures Abs(startX - endX) <= Abs(startY - endY) ==> ClassifySwipe(startX, startY, endX, endY) == NoSwipe
  {
  }

  /** What showImage puts into the lightbox for a picture, at position index of total. */
  function ShowPicture(old_: View, p: Picture, index: int, total: int): (v: View)
    ensures v.counter == Some(Counter(index + 1, total))
    ensures p.fullSrc.Some? && p.fullSrc.value != "" ==> v.src == p.fullSrc.value
    ensures p.fullSrc.None? || p.fullSrc == Some("") ==> v.src == p.src
    ensures v.alt == p.alt
    ensures p.title.Some? ==> v.title == p.title.value
    ensures p.title.None? ==> v.title == old_.title
    ensures p.overlayCaption.Some? ==> v.caption == p.overlayCaption.value
    ensures p.overlayCaption.None? && p.dataCaption.Some? && p.dataCaption.value != "" ==> v.caption == p.dataCaption.value
    ensures p.overlayCaption.None? && (p.dataCaption.None? || p.dataCaption == Some("")) ==> v.caption == old_.caption
  {
    var src := if p.fullSrc.Some? && p.fullSrc.value != "" then p.fullSrc.value else p.src;
    var title := if p.title.Some? then p.title.value else old_.title;
    var caption :=
      if p.overlayCaption.Some? then p.overlayCaption.value
      else if p.dataCaption.Some? && p.dataCaption.value != "" then p.dataCaption.value
      else old_.caption;
    View(src, p.alt, title, caption, Some(Counter(index + 1, total)))
  }

  const BlankView := View("", "", "", "", None)

  /** The lightbox openLightbox works on: the existing one, or a new blank one, made visible. */
  function Opened(lb: Option<Lightbox>): (r: Lightbox)
    ensures !r.hidden
    ensures lb.Some? ==> r.view == lb.value.view
    ensures lb.None? ==> r.view == BlankView
  {
    (if lb.Some? then lb.value else Lightbox(true, BlankView)).(hidden := false)
  }

  /** The item the lightbox shows when the image at imageIndex (among all images) is clicked. */
  function OpenedItemAsWritten(filtered: seq<nat>, imageIndex: int): Option<nat> {
    if 0 <= imageIndex < |filtered| then Some(filtered[imageIndex]) else None
  }

  /** Where item i sits in the filtered list, if it is there. */
  function PositionOf(filtered: seq<nat>, i: nat): (r: Option<nat>)
    ensures r.Some? ==> r.value < |filtered| && filtered[r.value] == i
    ensures r.None? ==> i !in filtered
  {
    if filtered == [] then None
    else if filtered[0] == i then Some(0)
    else match PositionOf(filtered[1..], i)
      case None => None
      case Some(k) => Some(k + 1)
  }

  /**
   * Finding: openLightbox receives the index of the clicked image among ALL gallery images
   * and showImage uses it as an index into the FILTERED items. Items a, b, b with filter "b":
   * clicking the second image (item 1, visible) opens item 2; clicking the third (item 2,
   * visible) opens nothing.
   */
  lemma OpenLightboxWrongItem()
    ensures var filtered := Matching([Some("a"), Some("b"), Some("b")], Some("b"));
      filtered == [1, 2] &&
      OpenedItemAsWritten(filtered, 1) == Some(2) &&
      OpenedItemAsWritten(filtered, 2) == None
  {
    var cats: seq<Option<string>> := [Some("a"), Some("b"), Some("b")];
    assert MatchingFrom(cats, Some("b"), 3) == [];
    assert MatchingFrom(cats, Some("b"), 2) == [2];
    assert MatchingFrom(cats, Some("b"), 1) == [1, 2];
  }

  /** Corrected: the clicked image's position in the filtered list always opens that very item. */
  lemma OpenClickedShowsClickedItem(cats: seq<Option<string>>, filter: Option<string>, i: nat)
    requires i < |cats| && Shows(filter, cats[i])
    ensures var filtered := Matching(cats, filter);
      PositionOf(filtered, i).Some? && filtered[PositionOf(filtered, i).value] == i
  {
  }

  /** The gallery object: constructed from the page's items and filter buttons. */
  class Gallery {
    const items: array<Item>
    const buttons: array<Button>
    var filtered: seq<nat>
    var currentImageIndex: int
    var lightbox: Option<Lightbox>
    /** document.body.style.overflow is 'hidden' while the lightbox is open. */
    var scrollLocked: bool

    /** The filtered list is an order-preserving choice of items, and the cursor is never negative. */
    ghost predicate Valid()
      reads this
    {
      Increasing(filtered) && (forall k :: 0 <= k < |filtered| ==> filtered[k] < items.Length) &&
      0 <= currentImageIndex
    }

    ghost function Cats(): seq<Option<string>>
      reads this, items
    {
      Categories(items[..])
    }

    /**
     * The state showImage(target) leaves behind when it started from cursor `before` and
     * lightbox `lb`: a target with a filtered item is displayed, with its counter, and becomes
     * the cursor; any other target leaves cursor and lightbox alone. Whether the lightbox is
     * hidden is never changed.
     */
    ghost predicate ShowedImage(target: int, before: int, lb: Lightbox)
      requires Valid()
      reads this, items
    {
      lightbox.Some? && lightbox.value.hidden == lb.hidden &&
      if 0 <= target < |filtered| then
        currentImageIndex == target &&
        lightbox.value.view == ShowPicture(lb.view, items[filtered[target]].picture, target, |filtered|)
      else
        currentImageIndex == before && lightbox == Some(lb)
    }

    /** constructor and init: filtering is set up (every item listed) only when there are buttons and items. */
    constructor (page: seq<Item>, filterButtons: seq<Button>)
      ensures Valid() && fresh(items) && fresh(buttons)
      ensures items[..] == page && buttons[..] == filterButtons
      ensures filtered == if |filterButtons| > 0 && |page| > 0 then Range(|page|) else []
      ensures currentImageIndex == 0 && lightbox == None && !scrollLocked
    {
      items := new Item[|page|](i requires 0 <= i < |page| => page[i]);
      buttons := new Button[|filterButtons|](i requires 0 <= i < |filterButtons| => filterButtons[i]);
      currentImageIndex := 0;
      lightbox := None;
      scrollLocked := false;
      filtered := if |filterButtons| > 0 && |page| > 0 then Range(|page|) else [];
    }

    /** updateFilteredItems: the matching items, in page order. */
    method UpdateFilteredItems(filter: Option<string>)
      requires Valid()
      modifies this`filtered
      ensures Valid()
      ensures filtered == Matching(Cats(), filter)
      ensures forall i :: 0 <= i < items.Length ==> (i in filtered <==> Shows(filter, items[i].category))
    {
      filtered := Matching(Categories(items[..]), filter);
    }

    /** filterImages: each item is shown or hidden by the rule, then the filtered list follows. */
    method FilterImages(filter: Option<string>)
      requires Valid()
      modifies this`filtered, items
      ensures Valid()
      ensures forall i :: 0 <= i < items.Length ==>
        items[i] == old(items[i]).(hidden := !Shows(filter, old(items[i]).category))
      ensures filtered == Matching(Cats(), filter)
      ensures forall i :: 0 <= i < items.Length ==> (i in filtered <==> !items[i].hidden)
    {
      var i := 0;
      while i < items.Length
        invariant 0 <= i <= items.Length && Valid()
        invariant forall k :: 0 <= k < i ==> items[k] == old(items[k]).(hidden := !Shows(filter, old(items[k]).category))
        invariant forall k :: i <= k < items.Length ==> items[k] == old(items[k])
      {
        items[i] := items[i].(hidden := !Shows(filter, items[i].category));
        i := i + 1;
      }
      UpdateFilteredItems(filter);
    }

    /** updateActiveButton: the clicked button alone is active and pressed. */
    method UpdateActiveButton(active: nat)
      requires active < buttons.Length
      modifies buttons
      ensures forall i :: 0 <= i < buttons.Length ==>
        buttons[i] == old(buttons[i]).(active := i == active, pressed := i == active)
    {
      var i := 0;
      while i < buttons.Length
        invariant 0 <= i <= buttons.Length
        invariant forall k :: 0 <= k < i ==> buttons[k] == old(buttons[k]).(active := false, pressed := false)
        invariant forall k :: i <= k < buttons.Length ==> buttons[k] == old(buttons[k])
      {
        buttons[i] := buttons[i].(active := false, pressed := false);
        i := i + 1;
      }
      buttons[active] := buttons[active].(active := true, pressed := true);
    }

    /** A click on filter button b: filter by its data-filter, then mark it the active one. */
    method OnFilterClick(b: nat)
      requires Valid() && b < buttons.Length
      modifies this`filtered, items, buttons
      ensures Valid()
      ensures filtered == Matching(Cats(), old(buttons[b].filter))
      ensures forall i :: 0 <= i < items.Length ==>
        items[i] == old(items[i]).(hidden := !Shows(old(buttons[b].filter), old(items[i]).category))
      ensures forall i :: 0 <= i < buttons.Length ==>
        buttons[i] == old(buttons[i]).(active := i == b, pressed := i == b)
    {
      var filter := buttons[b].filter;
      FilterImages(filter);
      UpdateActiveButton(b);
    }

    /** createLightbox: builds the (hidden) lightbox once; later calls do nothing. */
    method CreateLightbox()
      modifies this`lightbox
      ensures old(lightbox).Some? ==> lightbox == old(lightbox)
      ensures old(lightbox).None? ==> lightbox == Some(Lightbox(true, BlankView))
    {
      if lightbox.Some? {
        return;
      }
      lightbox := Some(Lightbox(true, BlankView));
    }

    /**
     * showImage: an index with no filtered item (negative, or past the end) is ignored;
     * otherwise that item's picture is shown, the counter reads "index+1 of n", and the
     * cursor moves there.
     */
    method ShowImage(index: int)
      requires Valid() && lightbox.Some?
      modifies this`currentImageIndex, this`lightbox
      ensures Valid() && ShowedImage(index, old(currentImageIndex), old(lightbox.value))
    {
      if !(0 <= index < |filtered|) {
        return;
      }
      var p := items[filtered[index]].picture;
      lightbox := Some(lightbox.value.(view := ShowPicture(lightbox.value.view, p, index, |filtered|)));
      currentImageIndex := index;
    }

    /** previousImage. */
    method PreviousImage()
      requires Valid() && lightbox.Some?
      modifies this`currentImageIndex, this`lightbox
      ensures Valid() && ShowedImage(PrevIndex(old(currentImageIndex), |filtered|), old(currentImageIndex), old(lightbox.value))
      ensures old(currentImageIndex) < |filtered| ==> currentImageIndex == PrevIndex(old(currentImageIndex), |filtered|)
    {
      var prev := if currentImageIndex > 0 then currentImageIndex - 1 else |filtered| - 1;
      ShowImage(prev);
    }

    /** nextImage. */
    method NextImage()
      requires Valid() && lightbox.Some?
      modifies this`currentImageIndex, this`lightbox
      ensures Valid() && ShowedImage(NextIndex(old(currentImageIndex), |filtered|), old(currentImageIndex), old(lightbox.value))
      ensures old(currentImageIndex) < |filtered| ==> currentImageIndex == NextIndex(old(currentImageIndex), |filtered|)
    {
      var next := if currentImageIndex < |filtered| - 1 then currentImageIndex + 1 else 0;
      ShowImage(next);
    }

    /** openLightbox as written: imageIndex is used directly as an index into the filtered list. */
    method OpenLightbox(imageIndex: int)
      requires Valid()
      modifies this`currentImageIndex, this`lightbox, this`scrollLocked
      ensures Valid() && ShowedImage(imageIndex, old(currentImageIndex), Opened(old(lightbox)))
      ensures lightbox.Some? && !lightbox.value.hidden && scrollLocked
      ensures OpenedItemAsWritten(filtered, imageIndex).Some? ==>
        currentImageIndex == imageIndex &&
        lightbox.value.view == ShowPicture(Opened(old(lightbox)).view,
          items[OpenedItemAsWritten(filtered, imageIndex).value].picture, imageIndex, |filtered|)
      ensures OpenedItemAsWritten(filtered, imageIndex).None? ==>
        currentImageIndex == old(currentImageIndex) && lightbox == Some(Opened(old(lightbox)))
    {
      CreateLightbox();
      ShowImage(imageIndex);
      lightbox := Some(lightbox.value.(hidden := false));
      scrollLocked := true;
    }

    /**
     * openLightbox corrected: the clicked image (item imageIndex) is looked up in the
     * filtered list, so the lightbox shows that item, at its position among the filtered ones.
     */
    method OpenClickedImage(imageIndex: nat)
      requires Valid() && imageIndex < items.Length
      modifies this`currentImageIndex, this`lightbox, this`scrollLocked
      ensures Valid() && lightbox.Some? && !lightbox.value.hidden && scrollLocked
      ensures imageIndex in filtered ==>
        0 <= currentImageIndex < |filtered| && filtered[currentImageIndex] == imageIndex &&
        lightbox.value.view == ShowPicture(Opened(old(lightbox)).view, items[imageIndex].picture, currentImageIndex, |filtered|)
      ensures imageIndex !in filtered ==>
        currentImageIndex == old(currentImageIndex) && lightbox == Some(Opened(old(lightbox)))
    {
      CreateLightbox();
      match PositionOf(filtered, imageIndex) {
        case Some(k) => ShowImage(k);
        case None =>
      }
      lightbox := Some(lightbox.value.(hidden := false));
      scrollLocked := true;
    }

    /** closeLightbox: hides an existing lightbox and releases the page scroll. */
    method CloseLightbox()
      modifies this`lightbox, this`scrollLocked
      ensures old(lightbox).None? ==> lightbox == None && scrollLocked == old(scrollLocked)
      ensures old(lightbox).Some? ==> lightbox == Some(old(lightbox).value.(hidden := true)) && !scrollLocked
    {
      if lightbox.Some? {
        lightbox := Some(lightbox.value.(hidden := true));
        scrollLocked := false;
      }
    }

    /** A click on the lightbox closes it only when it lands on the backdrop, not on its content. */
    method OnLightboxClick(onBackdrop: bool)
      requires lightbox.Some?
      modifies this`lightbox, this`scrollLocked
      ensures onBackdrop ==> lightbox == Some(old(lightbox.value).(hidden := true)) && !scrollLocked
      ensures !onBackdrop ==> lightbox == old(lightbox) && scrollLocked == old(scrollLocked)
    {
      if onBackdrop {
        CloseLightbox();
      }
    }

    /** Keys inside the lightbox: Escape closes, ArrowLeft goes back, ArrowRight goes on. */
    method OnLightboxKey(key: string)
      requires Valid() && lightbox.Some?
      modifies this`currentImageIndex, this`lightbox, this`scrollLocked
      ensures Valid() && lightbox.Some?
      ensures key == "Escape" ==>
        lightbox == Some(old(lightbox.value).(hidden := true)) && !scrollLocked && currentImageIndex == old(currentImageIndex)
      ensures key == "ArrowLeft" ==>
        ShowedImage(PrevIndex(old(currentImageIndex), |filtered|), old(currentImageIndex), old(lightbox.value)) &&
        scrollLocked == old(scrollLocked)
      ensures key == "ArrowRight" ==>
        ShowedImage(NextIndex(old(currentImageIndex), |filtered|), old(currentImageIndex), old(lightbox.value)) &&
        scrollLocked == old(scrollLocked)
      ensures key == "ArrowLeft" && old(currentImageIndex) < |filtered| ==>
        currentImageIndex == PrevIndex(old(currentImageIndex), |filtered|)
      ensures key == "ArrowRight" && old(currentImageIndex) < |filtered| ==>
        currentImageIndex == NextIndex(old(currentImageIndex), |filtered|)
      ensures key !in {"Escape", "ArrowLeft", "ArrowRight"} ==>
        currentImageIndex == old(currentImageIndex) && lightbox == old(lightbox) && scrollLocked == old(scrollLocked)
    {
      if key == "Escape" {
        CloseLightbox();
      } else if key == "ArrowLeft" {
        PreviousImage();
      } else if key == "ArrowRight" {
        NextImage();
      }
    }

    /** touchend: navigates as ClassifySwipe says. */
    method OnTouchEnd(startX: real, startY: real, endX: real, endY: real)
      requires Valid() && lightbox.Some?
      modifies this`currentImageIndex, this`lightbox
      ensures Valid() && lightbox.Some?
      ensures ClassifySwipe(startX, startY, endX, endY) == NoSwipe ==>
        currentImageIndex == old(currentImageIndex) && lightbox == old(lightbox)
      ensures ClassifySwipe(startX, startY, endX, endY) == SwipeNext ==>
        ShowedImage(NextIndex(old(currentImageIndex), |filtered|), old(currentImageIndex), old(lightbox.value))
      ensures ClassifySwipe(startX, startY, endX, endY) == SwipePrevious ==>
        ShowedImage(PrevIndex(old(currentImageIndex), |filtered|), old(currentImageIndex), old(lightbox.value))
      ensures ClassifySwipe(startX, startY, endX, endY) == SwipeNext && old(currentImageIndex) < |filtered| ==>
        currentImageIndex == NextIndex(old(currentImageIndex), |filtered|)
      ensures ClassifySwipe(startX, startY, endX, endY) == SwipePrevious && old(currentImageIndex) < |filtered| ==>
        currentImageIndex == PrevIndex(old(currentImageIndex), |filtered|)
    {
      var diffX, diffY := startX - endX, startY - endY;
      if Abs(diffX) > Abs(diffY) && Abs(diffX) > 50.0 {
        if diffX > 0.0 {
          NextImage();
        } else {
          PreviousImage();
        }
      }
    }
  }
}
