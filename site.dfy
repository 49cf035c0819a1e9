/**
 * Site-wide helpers (src/js/main.js): the mobile navigation menu and its focus trap, the
 * font-size stepper, the tabindex rule for interactive elements, the site-wide form
 * validator, and the .webp rewrite of image sources.
 */
module Site {
  import opened Wrappers
  import opened Text
  import opened Patterns
  import opened Fields

  /** CONFIG.breakpoints.md: from this window width on the layout is the desktop one. */
  const DesktopWidth := 768

  /**
   * The mobile menu. `wired` says whether init found both the menu button and the menu, and
   * so bound the event handlers; without them no event reaches the menu.
   * `ariaExpanded` is the button's aria-expanded, `menuHidden` the menu's "hidden" class and
   * `scrollLocked` whether the page body's overflow is 'hidden'.
   */
  class Navigation {
    const wired: bool
    var isMenuOpen: bool
    var ariaExpanded: bool
    var menuHidden: bool
    var scrollLocked: bool

    /** The menu's marks agree with isMenuOpen. */
    predicate Synced()
      reads this
    {
      ariaExpanded == isMenuOpen && menuHidden == !isMenuOpen && scrollLocked == isMenuOpen
    }

    /** The page's markup decides the initial marks; the menu starts closed. */
    constructor (wired: bool, ariaExpanded: bool, menuHidden: bool)
      ensures this.wired == wired && !isMenuOpen
      ensures this.ariaExpanded == ariaExpanded && this.menuHidden == menuHidden && !scrollLocked
    {
      this.wired := wired;
      isMenuOpen := false;
      this.ariaExpanded := ariaExpanded;
      this.menuHidden := menuHidden;
      scrollLocked := false;
    }

    method OpenMenu()
      modifies this
      ensures isMenuOpen && Synced()
    {
      menuHidden := false;
      ariaExpanded := true;
      isMenuOpen := true;
      scrollLocked := true;
    }

    method CloseMenu()
      modifies this
      ensures !isMenuOpen && Synced()
    {
      menuHidden := true;
      ariaExpanded := false;
      isMenuOpen := false;
      scrollLocked := false;
    }

    /** toggleMenu: flips the menu, and aria-expanded follows. */
    method ToggleMenu()
      modifies this
      ensures isMenuOpen == !old(isMenuOpen) && Synced()
    {
      if isMenuOpen {
        CloseMenu();
      } else {
        OpenMenu();
      }
    }

    /** A click on the menu button. */
    method OnButtonClick()
      modifies this
      ensures wired ==> isMenuOpen == !old(isMenuOpen) && Synced()
      ensures !wired ==> unchanged(this)
    {
      if wired {
        ToggleMenu();
      }
    }

    /**
     * Escape anywhere in the document closes an open menu and hands the focus back to the
     * menu button; with the menu closed it does nothing.
     */
    method OnEscape() returns (focusButton: bool)
      modifies this
      ensures focusButton <==> wired && old(isMenuOpen)
      ensures focusButton ==> !isMenuOpen && Synced()
      ensures !focusButton ==> unchanged(this)
    {
      focusButton := false;
      if wired && isMenuOpen {
        CloseMenu();
        focusButton := true;
      }
    }

    /** A resize to a desktop width (768 and up) closes an open menu; nothing else changes. */
    method OnResize(width: int)
      modifies this
      ensures wired && width >= DesktopWidth && old(isMenuOpen) ==> !isMenuOpen && Synced()
      ensures !(wired && width >= DesktopWidth && old(isMenuOpen)) ==> unchanged(this)
    {
      if wired && width >= DesktopWidth && isMenuOpen {
        CloseMenu();
      }
    }

    /** A click outside both the menu and its button closes an open menu. */
    method OnDocumentClick(insideMenu: bool, insideButton: bool)
      modifies this
      ensures wired && old(isMenuOpen) && !insideMenu && !insideButton ==> !isMenuOpen && Synced()
      ensures !(wired && old(isMenuOpen) && !insideMenu && !insideButton) ==> unchanged(this)
    {
      if wired && isMenuOpen && !insideMenu && !insideButton {
        CloseMenu();
      }
    }
  }

  /**
   * The focus trap on Tab inside the open menu, whose links are 0..linkCount-1 and where
   * `focused` is the link holding the focus, if any: Shift+Tab on the first link goes to the
   * last, Tab on the last goes to the first (the default move is prevented); anything else
   * is left to the browser (None).
   */
  function TrapTab(menuOpen: bool, linkCount: nat, focused: Option<nat>, shift: bool): (r: Option<nat>)
    ensures r.Some? <==> menuOpen && linkCount > 0 && focused == Some(if shift then 0 else linkCount - 1)
    ensures r.Some? ==> r.value < linkCount && r.value == (if shift then linkCount - 1 else 0)
  {
    if !menuOpen || linkCount == 0 then None
    else if shift && focused == Some(0) then Some(linkCount - 1)
    else if !shift && focused == Some(linkCount - 1) then Some(0)
    else None
  }

  /**
   * The trap redirects only at the two ends, always to the other end, and the two
   * redirections undo each other.
   */
  lemma TrapWraps(linkCount: nat, focused: Option<nat>, shift: bool)
    ensures TrapTab(true, linkCount, focused, shift).Some? ==>
      linkCount > 0 && focused.Some? &&
      (if shift then focused.value == 0 && TrapTab(true, linkCount, focused, shift).value == linkCount - 1
       else focused.value == linkCount - 1 && TrapTab(true, linkCount, focused, shift).value == 0)
    ensures linkCount > 0 ==>
      TrapTab(true, linkCount, TrapTab(true, linkCount, Some(linkCount - 1), false), true) == Some(linkCount - 1)
    ensures forall shift' :: TrapTab(false, linkCount, focused, shift') == None
  {
  }

  /** The font-size stepper's range and step, in percent. */
  const MinFontSize := 80
  const MaxFontSize := 150
  const FontStep := 10
  const DefaultFontSize := 100

  /** The sizes the stepper can show: multiples of 10 from 80 to 150. */
  predicate FontSizeOk(s: int) {
    MinFontSize <= s <= MaxFontSize && s % FontStep == 0
  }

  datatype FontClick = Smaller | ResetSize | Larger

  /** One click: A- gives max(80, s-10), A gives 100, A+ gives min(150, s+10). */
  function FontStepOf(s: int, click: FontClick): (r: int)
    ensures FontSizeOk(s) ==> FontSizeOk(r)
    ensures click == ResetSize ==> r == DefaultFontSize
    ensures FontSizeOk(s) && click == Smaller ==> r == if s == MinFontSize then s else s - FontStep
    ensures FontSizeOk(s) && click == Larger ==> r == if s == MaxFontSize then s else s + FontStep
  {
    match click
    case Smaller => if s - FontStep < MinFontSize then MinFontSize else s - FontStep
    case ResetSize => DefaultFontSize
    case Larger => if s + FontStep > MaxFontSize then MaxFontSize else s + FontStep
  }

  /** The size after a run of clicks. */
  function FontAfter(s: int, clicks: seq<FontClick>): int
    decreases |clicks|
  {
    if clicks == [] then s else FontAfter(FontStepOf(s, clicks[0]), clicks[1..])
  }

  /** Every click keeps the size a multiple of 10 between 80 and 150. */
  lemma FontStepKeepsRange(s: int, click: FontClick)
    requires FontSizeOk(s)
    ensures FontSizeOk(FontStepOf(s, click))
  {
  }

  /** Away from the bounds, A+ undoes A- and A- undoes A+. */
  lemma FontStepsUndo(s: int)
    requires FontSizeOk(s)
    ensures s > MinFontSize ==> FontStepOf(FontStepOf(s, Smaller), Larger) == s
    ensures s < MaxFontSize ==> FontStepOf(FontStepOf(s, Larger), Smaller) == s
  {
  }

  /** Whatever the clicks, the size stays a multiple of 10 between 80 and 150. */
  lemma {:induction false} FontAfterInRange(s: int, clicks: seq<FontClick>)
    requires FontSizeOk(s)
    ensures FontSizeOk(FontAfter(s, clicks))
    decreases |clicks|
  {
    if clicks != [] {
      FontStepKeepsRange(s, clicks[0]);
      FontAfterInRange(FontStepOf(s, clicks[0]), clicks[1..]);
    }
  }

  /** k clicks on A+. */
  function Repeat(click: FontClick, k: nat): (r: seq<FontClick>)
    ensures |r| == k && forall i :: 0 <= i < k ==> r[i] == click
  {
    if k == 0 then [] else [click] + Repeat(click, k - 1)
  }

  lemma {:induction false} LargerClimbs(s: int, k: nat)
    requires FontSizeOk(s) && s + k * FontStep <= MaxFontSize
    ensures FontAfter(s, Repeat(Larger, k)) == s + k * FontStep
    decreases k
  {
    if k > 0 {
      assert Repeat(Larger, k)[1..] == Repeat(Larger, k - 1);
      LargerClimbs(s + FontStep, k - 1);
    }
  }

  /** Every size the stepper allows is reached from the default: A- twice, then A+ as needed. */
  lemma EverySizeReachable(target: int)
    requires FontSizeOk(target)
    ensures FontAfter(DefaultFontSize, [Smaller, Smaller] + Repeat(Larger, (target - MinFontSize) / FontStep)) == target
  {
    var k := (target - MinFontSize) / FontStep;
    var clicks := [Smaller, Smaller] + Repeat(Larger, k);
    assert clicks[1..] == [Smaller] + Repeat(Larger, k);
    assert clicks[1..][1..] == Repeat(Larger, k);
    assert FontAfter(DefaultFontSize, clicks) == FontAfter(MinFontSize, Repeat(Larger, k));
    LargerClimbs(MinFontSize, k);
  }

  /**
   * The stepper's captured currentFontSize and the root element's inline font-size (None
   * until the first click).
   */
  class FontScaler {
    var currentFontSize: int
    var rootFontSize: Option<int>

    ghost predicate Valid()
      reads this
    {
      FontSizeOk(currentFontSize) && (rootFontSize.Some? ==> rootFontSize == Some(currentFontSize))
    }

    constructor ()
      ensures Valid() && currentFontSize == DefaultFontSize && rootFontSize == None
    {
      currentFontSize := DefaultFontSize;
      rootFontSize := None;
    }

    /** A click on A-, A or A+: the size steps and the page's root font size follows. */
    method Click(click: FontClick)
      requires Valid()
      modifies this
      ensures Valid()
      ensures currentFontSize == FontStepOf(old(currentFontSize), click)
      ensures rootFontSize == Some(currentFontSize)
    {
      FontStepKeepsRange(currentFontSize, click);
      match click {
        case Smaller =>
          currentFontSize := if currentFontSize - 10 < 80 then 80 else currentFontSize - 10;
        case ResetSize =>
          currentFontSize := 100;
        case Larger =>
          currentFontSize := if currentFontSize + 10 > 150 then 150 else currentFontSize + 10;
      }
      rootFontSize := Some(currentFontSize);
    }
  }

  /**
   * setupFocusManagement: every interactive element without a tabindex gets 0; an existing
   * tabindex is kept. Entries are the elements' tabindex values, None for no attribute.
   */
  method EnsureFocusable(tabindex: array<Option<int>>)
    modifies tabindex
    ensures forall i :: 0 <= i < tabindex.Length ==>
      tabindex[i] == if old(tabindex[i]).None? then Some(0) else old(tabindex[i])
  {
    var i := 0;
    while i < tabindex.Length
      invariant 0 <= i <= tabindex.Length
      invariant forall k :: 0 <= k < i ==> tabindex[k] == if old(tabindex[k]).None? then Some(0) else old(tabindex[k])
      invariant forall k :: i <= k < tabindex.Length ==> tabindex[k] == old(tabindex[k])
    {
      if tabindex[i].None? {
        tabindex[i] := Some(0);
      }
      i := i + 1;
    }
  }

  /** FormEnhancement's rules: required, email and tel (no length rule). */
  predicate FieldValid(f: Control) {
    !MissingRequired(f) && !BadEmail(f) && !BadPhone(f)
  }

  /** FormEnhancement.validateField: rules in turn, the message of the last failing one. */
  method ValidateField(f: Control) returns (isValid: bool, errorMessage: string)
    ensures isValid <==> FieldValid(f)
    ensures isValid <==> errorMessage == ""
    ensures BadEmail(f) ==> errorMessage == EmailMessage
    ensures BadPhone(f) ==> errorMessage == PhoneMessage
    ensures MissingRequired(f) && !BadEmail(f) && !BadPhone(f) ==> errorMessage == RequiredMessage
  {
    var value := Trim(f.value);
    isValid := true;
    errorMessage := "";
    if f.required && value == [] {
      isValid := false;
      errorMessage := RequiredMessage;
    }
    if f.kind == "email" && value != [] {
      if !IsValidEmail(value) {
        isValid := false;
        errorMessage := EmailMessage;
      }
    }
    if f.kind == "tel" && value != [] {
      if !IsValidPhone(value) {
        isValid := false;
        errorMessage := PhoneMessage;
      }
    }
  }

  /** A control as validateForm leaves it: aria-invalid set exactly when a rule fails. */
  function Marked(f: Control): Control {
    f.(invalid := !FieldValid(f))
  }

  /** Every control in fs passes the site-wide rules. */
  predicate AllValid(fs: seq<Control>) {
    forall i :: 0 <= i < |fs| ==> FieldValid(fs[i])
  }

  /** One step of validateForm: validateField on the control at i, and its aria-invalid mark. */
  method MarkField(fields: array<Control>, i: nat) returns (ok: bool)
    requires i < fields.Length
    modifies fields
    ensures ok == FieldValid(old(fields[i]))
    ensures fields[i] == Marked(old(fields[i]))
    ensures forall k :: 0 <= k < fields.Length && k != i ==> fields[k] == old(fields[k])
  {
    var f := fields[i];
    var message;
    ok, message := ValidateField(f);
    fields[i] := f.(invalid := !ok);
  }

  /**
   * validateForm: every control is validated, none skipped (each gets its aria-invalid
   * mark), and the form is valid exactly when every control is.
   */
  method ValidateForm(fields: array<Control>) returns (isFormValid: bool)
    modifies fields
    ensures isFormValid <==> AllValid(old(fields[..]))
    ensures forall i :: 0 <= i < fields.Length ==> fields[i] == Marked(old(fields[i]))
  {
    isFormValid := true;
    var i := 0;
    while i < fields.Length
      invariant 0 <= i <= fields.Length
      invariant forall k :: 0 <= k < i ==> fields[k] == Marked(old(fields[k]))
      invariant forall k :: i <= k < fields.Length ==> fields[k] == old(fields[k])
      invariant isFormValid <==> forall k :: 0 <= k < i ==> FieldValid(old(fields[k]))
    {
      var ok := MarkField(fields, i);
      if !ok {
        isFormValid := false;
      }
      i := i + 1;
    }
  }

  /** The raster suffixes the rewrite recognises, and how long the matched one is (0: none). */
  function RasterSuffixLength(src: string): (n: nat)
    ensures n == 0 || n == 4 || n == 5
    ensures n <= |src|
    ensures n > 0 <==>
      EndsWithIgnoringCase(src, ".jpg") || EndsWithIgnoringCase(src, ".jpeg") || EndsWithIgnoringCase(src, ".png")
    ensures n == 5 <==> EndsWithIgnoringCase(src, ".jpeg")
  {
    if EndsWithIgnoringCase(src, ".jpeg") then 5
    else if EndsWithIgnoringCase(src, ".jpg") || EndsWithIgnoringCase(src, ".png") then 4
    else 0
  }

  /** src.replace(/\.(jpg|jpeg|png)$/i, '.webp'). */
  function WebpSource(src: string): (r: string)
    ensures RasterSuffixLength(src) == 0 ==> r == src
    ensures RasterSuffixLength(src) > 0 ==>
      |r| == |src| - RasterSuffixLength(src) + 5 && r[|r| - 5..] == ".webp"
  {
    var n := RasterSuffixLength(src);
    if n == 0 then src else src[..|src| - n] + ".webp"
  }

  /**
   * A name ending in .jpg, .jpeg or .png (any case) keeps everything before the suffix and
   * ends in .webp instead; any other name is left as it is.
   */
  lemma WebpRewrite(src: string)
    ensures var raster := EndsWithIgnoringCase(src, ".jpg") || EndsWithIgnoringCase(src, ".jpeg") ||
                          EndsWithIgnoringCase(src, ".png");
      var r := WebpSource(src);
      (raster ==> EndsWith(r, ".webp") && r[..|r| - 5] == src[..|src| - RasterSuffixLength(src)])
      && (!raster ==> r == src)
  {
  }

  /** The rewrite is idempotent: a .webp name has no raster suffix. */
  lemma WebpIdempotent(src: string)
    ensures WebpSource(WebpSource(src)) == WebpSource(src)
  {
    var r := WebpSource(src);
    if RasterSuffixLength(src) > 0 {
      var n := |r|;
      assert r[n - 1] == r[n - 5..][4] == 'p';
      assert !EndsWithIgnoringCase(r, ".jpeg") by {
        assert AsciiLower(r[n - 5 + 4]) != ".jpeg"[4];
      }
      assert !EndsWithIgnoringCase(r, ".jpg") by {
        assert AsciiLower(r[n - 4 + 3]) != ".jpg"[3];
      }
      assert !EndsWithIgnoringCase(r, ".png") by {
        assert AsciiLower(r[n - 4 + 3]) != ".png"[3];
      }
    }
  }

  /** Case does not matter, and only the last suffix is rewritten. */
  lemma WebpRewritten()
    ensures WebpSource("photo.JPG") == "photo.webp"
    ensures WebpSource("a.jpeg.png") == "a.jpeg.webp"
  {
    var a := "photo.JPG";
    assert AsciiLower(a[9 - 5 + 0]) != ".jpeg"[0];
    assert forall i :: 0 <= i < 4 ==> AsciiLower(a[9 - 4 + i]) == ".jpg"[i];
    assert EndsWithIgnoringCase(a, ".jpg");
    var b := "a.jpeg.png";
    assert AsciiLower(b[10 - 5 + 3]) != ".jpeg"[3];
    assert AsciiLower(b[10 - 4 + 2]) != ".jpg"[2];
    assert forall i :: 0 <= i < 4 ==> AsciiLower(b[10 - 4 + i]) == ".png"[i];
    assert EndsWithIgnoringCase(b, ".png");
  }

  /** A query string defeats the rule, and other formats pass through. */
  lemma WebpKept()
    ensures WebpSource("a.png?v=2") == "a.png?v=2"
    ensures WebpSource("icon.svg") == "icon.svg"
  {
    var c := "a.png?v=2";
    assert AsciiLower(c[9 - 5 + 4]) != ".jpeg"[4];
    assert AsciiLower(c[9 - 4 + 3]) != ".jpg"[3];
    assert AsciiLower(c[9 - 4 + 3]) != ".png"[3];
    var d := "icon.svg";
    assert AsciiLower(d[8 - 5 + 3]) != ".jpeg"[3];
    assert AsciiLower(d[8 - 4 + 2]) != ".jpg"[2];
    assert AsciiLower(d[8 - 4 + 2]) != ".png"[2];
  }

  /** An image: its src and whether it has a srcset attribute. */
  datatype Image = Image(src: string, hasSrcset: bool)

  /** What optimizeImages makes of one image: the .webp source, when it has no srcset and WebP is supported. */
  function Optimized(img: Image, supportsWebP: bool): (r: Image)
    ensures r.hasSrcset == img.hasSrcset
    ensures img.hasSrcset || !supportsWebP ==> r == img
  {
    if !img.hasSrcset && supportsWebP then img.(src := WebpSource(img.src)) else img
  }

  /**
   * optimizeImages: every image without a srcset gets the .webp source when the browser
   * supports WebP (the canvas probe is the parameter).
   */
  method OptimizeImages(images: array<Image>, supportsWebP: bool)
    modifies images
    ensures forall i :: 0 <= i < images.Length ==> images[i] == Optimized(old(images[i]), supportsWebP)
    ensures forall i :: 0 <= i < images.Length && !old(images[i]).hasSrcset && supportsWebP ==>
      images[i].src == WebpSource(old(images[i]).src)
  {
    var i := 0;
    while i < images.Length
      invariant 0 <= i <= images.Length
      invariant forall k :: 0 <= k < i ==> images[k] == Optimized(old(images[k]), supportsWebP)
      invariant forall k :: i <= k < images.Length ==> images[k] == old(images[k])
    {
      if !images[i].hasSrcset {
        var webpSrc := WebpSource(images[i].src);
        if supportsWebP {
          images[i] := images[i].(src := webpSrc);
        }
      }
      i := i + 1;
    }
    forall k | 0 <= k < images.Length && !old(images[k]).hasSrcset && supportsWebP
      ensures images[k].src == WebpSource(old(images[k]).src)
    {
      assert images[k] == old(images[k]).(src := WebpSource(old(images[k]).src));
    }
  }
}
