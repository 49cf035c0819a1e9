# A verified model of the Sarala Yoga site's scripts and build

The project models the logic inside a static yoga-studio website. There are four parts:

- **Gallery page** (`src/js/gallery.js`): category filtering of the gallery items, the filter buttons' pressed state, and the lightbox. Its cursor `currentImageIndex` moves over the filtered items with wrap-around. Buttons, arrow keys and swipes drive it.
- **Contact form** (`src/js/contact-form.js`): the per-field rules (required, email shape, phone shape, message length 10 to 1000 after trimming), the three blur-time validators, the submit handler with its `isSubmitting` guard, the submitting state that disables every control, and the tab-order numbering.
- **Site-wide helpers** (`src/js/main.js`): the mobile menu's open/closed state machine (toggle, Escape, resize to desktop, click outside), the focus trap, the font-size stepper (80% to 150% in steps of 10), the rule that makes interactive elements focusable, the second copy of the field validator with its form-level fold, and the `.jpg`/`.jpeg`/`.png` to `.webp` rewrite.
- **Build script** (`build.js`), over an abstract file tree:
  - creating `dist/` and `dist/js/`;
  - selecting the top-level `.html` pages;
  - the two first-occurrence rewrites of each page (the Tailwind CDN script tag is removed, and the development stylesheet link is pointed at `/dist/styles.css`);
  - per-page and per-script error isolation;
  - the fixed list of three scripts;
  - the recursive `copyDir` that mirrors `public/` and `src/assets/` into `dist/`.

Modules, one concept each:

| module | file | what it holds |
|---|---|---|
| `Wrappers` | `wrappers.dfy` | `Option` |
| `Text` | `text.dfy` | JavaScript's white space, `trim`, `indexOf`, first-occurrence `replace` and `endsWith`, as used by the site |
| `Patterns` | `patterns.dfy` | the email and phone regular expressions, as predicates on strings |
| `Fields` | `fields.dfy` | form controls, and the rules both validators share |
| `ContactForms` | `contact_form.dfy` | the contact form |
| `FormsAgree` | `forms_agree.dfy` | how the two validators relate |
| `Galleries` | `gallery.dfy` | the gallery |
| `Site` | `site.dfy` | `main.js` |
| `FileSystem` | `filesystem.dfy` | the tree, and the `fs` calls the build uses |
| `CopyTrees` | `copy_dir.dfy` | `copyDir` |
| `HtmlRewrite` | `html_rewrite.dfy` | the page rewrite |
| `Build` | `build.dfy` | the build script |

Code that mutates page state is modelled imperatively:

- Gallery items, filter buttons and form controls are arrays of value records, updated element by element in loops.
- The gallery, the contact form, the navigation menu, the font stepper and the disk are classes whose methods update their fields.

`handleSubmit` awaits the delivery, so it is modelled as two steps: `HandleSubmit` runs up to the `await` and `CompleteSubmit` runs after it. A second submit can fall in between and meet the guard. The delivery's outcome, WebP support, the two minifiers and directory listing order are inputs to the model.

`build.js` removes only the FIRST CDN script tag, because its regular expression has no `g` flag. A page that includes the tag twice keeps the second copy (`SecondTagSurvives`). The model follows the code.

## Model

| member | source | states |
|---|---|---|
| Text.TrimSpec | src/js/contact-form.js:112 | `trim()` keeps one contiguous slice of the text and cuts only white space on both sides; the result is empty exactly when the text is blank, and otherwise starts and ends with a non-space character |
| Text.IndexFrom | build.js:45-51 | the first occurrence of the pattern at or after k, with none before it; None exactly when there is no occurrence from k on |
| Text.ReplaceFirst | build.js:45-51 | the result is exactly as long as the text when the pattern does not occur, and otherwise shorter by the pattern and longer by the replacement |
| Text.ReplaceFirstAbsent | build.js:45-51 | replacing the first occurrence of a text that does not occur changes nothing |
| Text.ReplaceFirstPresent | build.js:45-51 | when the pattern occurs, the result is the text with its FIRST occurrence cut out and the replacement put in its place; everything before it is untouched |
| Patterns.IsValidEmail | src/js/contact-form.js:186-189 | an accepted address has at least five characters and starts and ends with a character that is neither white space nor '@' |
| Patterns.IsValidPhone | src/js/contact-form.js:191-195 | an accepted number has at least ten characters, each a digit, white space, '-', '(' or ')', except a '+' in first place |
| Patterns.EmailRuleByParts | src/js/contact-form.js:186-189 | `/^[^\s@]+@[^\s@]+\.[^\s@]+$/` accepts exactly the strings with one '@', no white space, a non-empty part before the '@', and a '.' after it with non-empty text on both sides |
| Patterns.EmailAccepted | src/js/contact-form.js:187 | `a@b.c` and `first.last@mail.example.org` are accepted |
| Patterns.EmailRejected | src/js/contact-form.js:187 | `a@b` (no dot after '@'), `a b@c.d` (white space) and `a@b@c.d` (two '@') are rejected |
| Patterns.PhoneRuleDeterministic | src/js/contact-form.js:191-195 | the phone rule holds iff the text is an optional '+' followed by at least ten characters from digits, white space, '-', '(' and ')' |
| Patterns.PhoneNeedsNoDigit | src/js/contact-form.js:193 | ten hyphens pass the phone rule: it needs no digit |
| Patterns.NineDigitsRejected | src/js/contact-form.js:193 | nine digits, with or without '+', are too few |
| Fields.BlankOptionalPasses | src/js/contact-form.js:117-135 | an optional control holding only white space breaks neither the required rule nor the email or phone rule |
| Fields.BlankRequiredMissing | src/js/contact-form.js:117-120 | a required control holding only white space is missing ("This field is required") |
| ContactForms.ValidateField | src/js/contact-form.js:111-151 | the control is valid exactly when it breaks no rule (required, email, tel, message length 10..1000 after trim); the message is empty exactly when valid, and is that of the last failing rule |
| ContactForms.ValidateEmail | src/js/contact-form.js:153-161 | a blank value is accepted; any other value is accepted exactly when its trimmed text is an email address |
| ContactForms.ValidatePhone | src/js/contact-form.js:163-171 | a blank value is accepted; any other value is accepted exactly when its trimmed text is a phone number |
| ContactForms.ValidateMessage | src/js/contact-form.js:173-184 | accepted exactly when the trimmed text has 10 to 1000 characters, so a blank message is refused |
| ContactForms.ValidateEmailAgrees | src/js/contact-form.js:153-161 | the blur-time email check agrees with validateField on an optional email input; a blank one is valid |
| ContactForms.ValidatePhoneAgrees | src/js/contact-form.js:163-171 | the blur-time phone check agrees with validateField on an optional tel input; a blank one is valid |
| ContactForms.ValidateMessageAgrees | src/js/contact-form.js:173-184 | the blur-time message check holds iff 10 <= trimmed length <= 1000, and agrees with validateField on the message textarea |
| ContactForms.ContactForm.constructor | src/js/contact-form.js:7-17 | the form starts not submitting, with no banner and its controls as on the page |
| ContactForms.ContactForm.SetSubmittingState | src/js/contact-form.js:300-324 | afterwards isSubmitting is b, the submit button (if any) is disabled iff b, and every control's disabled is b with nothing else changed |
| ContactForms.ContactForm.HandleSubmit | src/js/contact-form.js:235-254 | while submitting nothing changes; otherwise every control is validated and marked (no short-circuit), submission starts iff all are valid, and an invalid form shows the correction banner |
| ContactForms.ContactForm.CompleteSubmit | src/js/contact-form.js:256-266 | after delivery the form is reset and the success banner shown, after a failure the error banner; in both cases isSubmitting is false and every control enabled |
| ContactForms.DoubleSubmit | src/js/contact-form.js:235-266 | on a valid form, a second submit while the first is pending does not start, and once the first settles the form is no longer submitting |
| ContactForms.NumberTabOrder | src/js/contact-form.js:76-79 | the focusable controls get tabindex 1..n in document order |
| FormsAgree.ContactStricterThanSite | src/js/main.js:372-403 | a control the contact form accepts is accepted by the site-wide validator, and the two agree on every control but the message textarea |
| Galleries.Matching | src/js/gallery.js:64-69 | the filtered list is the strictly increasing list of indices of the items whose category the filter shows ('all', or an equal category) |
| Galleries.AllShowsEverything | src/js/gallery.js:38 | with the filter 'all' the filtered list is every item in page order |
| Galleries.NextIndex | src/js/gallery.js:263-268 | on a valid cursor, next is (current + 1) mod n |
| Galleries.PrevIndex | src/js/gallery.js:256-261 | on a valid cursor, previous is (current + n - 1) mod n |
| Galleries.NextPrevInverse | src/js/gallery.js:256-268 | on a valid cursor, next and previous stay in range and undo each other |
| Galleries.NextCycles | src/js/gallery.js:263-268 | k presses of next move the cursor k places round the list, so n presses come back to the start |
| Galleries.ClassifySwipe | src/js/gallery.js:207-221 | a gesture navigates exactly when it moves more than 50 px horizontally and more horizontally than vertically; it goes on when the finger moved left, back when it moved right |
| Galleries.SwipeReversed | src/js/gallery.js:214-220 | a swipe needs \|dx\| > \|dy\| and \|dx\| > 50; the reversed gesture navigates the other way |
| Galleries.ShowPicture | src/js/gallery.js:239-251 | the lightbox shows data-full-src when non-empty and else src, the alt text, the overlay's h3 as title, the overlay's p as caption before a non-empty data-caption, the old title and caption where the item has none, and the counter "index+1 of n" |
| Galleries.Opened | src/js/gallery.js:97-101 | openLightbox works on the lightbox already built, or on a new blank one, and makes it visible |
| Galleries.PositionOf | src/js/gallery.js:82-84 | the position of an item in the filtered list, and None exactly when it is not there |
| Galleries.OpenLightboxWrongItem | src/js/gallery.js:82-99 | with items a, b, b filtered by "b", the code as written opens item 2 for a click on item 1, and nothing for a click on item 2 |
| Galleries.OpenClickedShowsClickedItem | src/js/gallery.js:82-99 | looking the clicked item up in the filtered list always finds the item that was clicked |
| Galleries.Gallery.constructor | src/js/gallery.js:7-38 | the cursor starts at 0 with no lightbox; the filtered list is every item when there are buttons and items, else empty |
| Galleries.Gallery.UpdateFilteredItems | src/js/gallery.js:64-69 | the filtered list becomes the matching items in page order |
| Galleries.Gallery.FilterImages | src/js/gallery.js:41-55 | each item is hidden exactly when the filter does not show it, nothing else of it changes, and the filtered list is exactly the shown items |
| Galleries.Gallery.UpdateActiveButton | src/js/gallery.js:71-79 | exactly the clicked button is active and aria-pressed |
| Galleries.Gallery.OnFilterClick | src/js/gallery.js:28-34 | a click filters by the button's data-filter (every item hidden exactly when the filter does not show it, the filtered list the shown items) and leaves that button alone active and pressed |
| Galleries.Gallery.CreateLightbox | src/js/gallery.js:112-113 | the lightbox is built once, hidden; later calls change nothing |
| Galleries.Gallery.ShowImage | src/js/gallery.js:224-254 | an index with no filtered item changes nothing; otherwise that item's picture is displayed with the counter "index+1 of n" and the cursor moves there; the lightbox stays hidden or shown as it was |
| Galleries.Gallery.PreviousImage | src/js/gallery.js:256-261 | the cursor moves one back, from 0 to the last item, and that item is displayed; the lightbox stays hidden or shown as it was |
| Galleries.Gallery.NextImage | src/js/gallery.js:263-268 | the cursor moves one on, from the last item to 0, and that item is displayed; the lightbox stays hidden or shown as it was |
| Galleries.Gallery.OpenLightbox | src/js/gallery.js:97-101 | as written: the lightbox is shown and scroll locked; when the filtered list has an entry at the clicked image's index among ALL images, the item at that entry is displayed and the cursor moves there, otherwise the lightbox keeps its old picture |
| Galleries.Gallery.OpenClickedImage | src/js/gallery.js:97-101 | corrected: the lightbox is shown and scroll locked, and displays the clicked item's own picture with the cursor and counter at its position among the filtered items |
| Galleries.Gallery.CloseLightbox | src/js/gallery.js:270-273 | an existing lightbox is hidden and scroll released; with none, nothing happens |
| Galleries.Gallery.OnLightboxClick | src/js/gallery.js:188-192 | a click on the backdrop itself closes the lightbox and releases the scroll; a click on its content changes nothing |
| Galleries.Gallery.OnLightboxKey | src/js/gallery.js:173-185 | Escape closes; ArrowLeft and ArrowRight display the previous or next item with its counter, leaving the lightbox shown and the scroll lock as they were; any other key changes nothing |
| Galleries.Gallery.OnTouchEnd | src/js/gallery.js:207-221 | a qualifying leftward swipe displays the next item, a rightward one the previous, as NextImage and PreviousImage do; any other gesture changes nothing |
| Site.Navigation.constructor | src/js/main.js:24-37 | the menu starts closed; the handlers are wired only when the button and the menu exist |
| Site.Navigation.OpenMenu | src/js/main.js:94-107 | the menu is open and shown, aria-expanded is true and scroll is locked |
| Site.Navigation.CloseMenu | src/js/main.js:109-116 | the menu is closed and hidden, aria-expanded is false and scroll is released |
| Site.Navigation.ToggleMenu | src/js/main.js:86-92 | isMenuOpen flips and aria-expanded equals it afterwards |
| Site.Navigation.OnButtonClick | src/js/main.js:40 | a click on the button toggles a wired menu |
| Site.Navigation.OnEscape | src/js/main.js:50-55 | Escape closes the menu and returns focus to the button only when the menu is open |
| Site.Navigation.OnResize | src/js/main.js:58-62 | a resize to a width of 768 or more closes an open menu; otherwise nothing changes |
| Site.Navigation.OnDocumentClick | src/js/main.js:43-47 | a click outside both the menu and its button closes an open menu; otherwise nothing changes |
| Site.TrapTab | src/js/main.js:71-83 | the trap redirects exactly when the menu is open and the focus is on the last link (Tab) or the first (Shift+Tab), and then to the other end |
| Site.TrapWraps | src/js/main.js:71-83 | Shift+Tab on the first link goes to the last, Tab on the last goes to the first, and a closed menu traps nothing |
| Site.FontStepKeepsRange | src/js/main.js:234-247 | every click keeps the size a multiple of 10 between 80 and 150 |
| Site.FontStepsUndo | src/js/main.js:234-247 | away from the bounds, A+ undoes A- and A- undoes A+ |
| Site.FontStepOf | src/js/main.js:234-247 | from an allowed size a click gives an allowed size: A- one step down but not below 80, A+ one step up but not above 150, A back to 100 |
| Site.FontAfterInRange | src/js/main.js:232-247 | from any allowed size, any run of clicks ends at an allowed size |
| Site.LargerClimbs | src/js/main.js:244-247 | below the maximum, k clicks on A+ raise the size by 10k |
| Site.EverySizeReachable | src/js/main.js:232-247 | every allowed size is reached from the default 100 |
| Site.FontScaler.constructor | src/js/main.js:232 | the size starts at 100 and the root font size is left alone |
| Site.FontScaler.Click | src/js/main.js:234-247 | A- gives max(80, s-10), A gives 100, A+ gives min(150, s+10); the root font size follows; the size stays allowed |
| Site.EnsureFocusable | src/js/main.js:152-157 | elements without a tabindex get 0, and existing tabindex values are left unchanged |
| Site.ValidateField | src/js/main.js:372-403 | the control is valid exactly when it breaks neither the required, email nor tel rule; the message is empty exactly when valid, and is that of the last failing rule |
| Site.MarkField | src/js/main.js:409-413 | one control is validated and marked, and no other changes |
| Site.ValidateForm | src/js/main.js:405-416 | the form is valid iff every control is, and every control is validated and marked (no short-circuit) |
| Site.RasterSuffixLength | src/js/main.js:544 | a suffix is matched exactly when the name ends with .jpg, .jpeg or .png in any case; it is 5 characters long exactly for .jpeg, else 4, and fits in the name |
| Site.WebpSource | src/js/main.js:544 | a name without a raster suffix is kept; otherwise the suffix gives way to the five characters .webp |
| Site.WebpRewrite | src/js/main.js:544 | a name ending (in any case) with .jpg, .jpeg or .png keeps everything before that suffix and ends with .webp; any other name is unchanged |
| Site.WebpIdempotent | src/js/main.js:544 | rewriting twice is rewriting once |
| Site.WebpRewritten | src/js/main.js:544 | `photo.JPG` becomes `photo.webp`, and `a.jpeg.png` becomes `a.jpeg.webp` |
| Site.WebpKept | src/js/main.js:544 | `a.png?v=2` and `icon.svg` are left as they are |
| Site.Optimized | src/js/main.js:541-550 | an image with a srcset, or any image without WebP support, is left as it is; the srcset flag never changes |
| Site.OptimizeImages | src/js/main.js:538-552 | with WebP support, each image without srcset gets the rewritten source; every other image, and every image without support, is unchanged |
| FileSystem.Disk.MakeDirs | build.js:87-89 | mkdirSync(recursive) adds exactly p and its missing ancestors as directories and keeps every existing entry |
| FileSystem.Disk.ReadDir | build.js:35 | the listing holds each child's name exactly once |
| FileSystem.Disk.ReadFile | build.js:42 | the file's text, or None exactly when p is not a file |
| FileSystem.Disk.WriteFile | build.js:54 | writes exactly when the parent is a directory and p is not one; otherwise nothing changes |
| FileSystem.Disk.CopyFile | build.js:99 | copies exactly when the source is a file and the target writable; otherwise nothing changes |
| CopyTrees.ChildCanCopy | build.js:96-97 | the recursive call on a subdirectory can run, and its source tree is smaller |
| CopyTrees.CopyEntry | build.js:92-101 | one entry is mirrored: a subdirectory recursively, a file by copyFileSync |
| CopyTrees.CopyDir | build.js:86-102 | every entry below src has an identical copy at the same relative path below dest; outside dest only dest's missing ancestors appear; below dest, what is not a copy is kept |
| HtmlRewrite.RewriteUntouched | build.js:45-51 | a page with neither the CDN tag nor the source stylesheet link is unchanged |
| HtmlRewrite.RewriteHtml | build.js:45-51 | the rewrite never makes a page longer, and shortens it by at most the CDN tag and 3 characters |
| HtmlRewrite.RewriteCutsFirstTag | build.js:45-47 | the first CDN tag is cut out before the link is replaced |
| HtmlRewrite.CutKeepsLink | build.js:45-51 | cutting the CDN tag never destroys a stylesheet link |
| HtmlRewrite.RewriteLinksToDist | build.js:48-51 | a page that links the source stylesheet links the built one after the rewrite |
| HtmlRewrite.SecondTagSurvives | build.js:45-47 | only the first CDN tag is removed: a page with it twice keeps one |
| Build.PrepareOutput | build.js:25-31 | dist and dist/js exist afterwards, only those two can be new, and nothing existing changes; when both exist the tree is unchanged |
| Build.HtmlFiles | build.js:35 | exactly the listed names that end with .html, no more of them than listed |
| Build.HtmlFilesDistinct | build.js:35 | the selected pages are distinct when the listing is |
| Build.PageOutput | build.js:41-53 | only an existing file yields output, which is the minifier's result on the rewritten page; a page with neither the CDN tag nor the source stylesheet link is minified as it is |
| Build.PageOutcomeOf | build.js:41-58 | a page is logged written exactly when it has an output and dist/f can be written |
| Build.PageLocal | build.js:37-59 | a page's outcome and output depend only on its own entry, dist and dist/f |
| Build.BuildPages | build.js:25-59 | the page phase: the pages are exactly the top-level .html names; each goes out exactly when it can be read and minified and dist has no directory under its name, and its text is in dist afterwards; dist is a directory and both copies can still run; nothing but dist, dist/js and the written pages changes |
| Build.BuildHtml | build.js:33-59 | every top-level .html page is processed; a page that fails is logged and the loop goes on; every written page holds its rewritten, minified text; nothing else changes |
| Build.JsFilesDistinct | build.js:63 | the three script names are distinct |
| Build.JobFor | build.js:66-80 | the job records the script's name; it is skipped exactly when the source is absent, passed on with the file's text exactly when it is a file, and unreadable exactly when a directory stands there |
| Build.StartJs | build.js:65-82 | one job per script in list order: a missing script is skipped, an unreadable one reported, a readable one's code passed on |
| Build.JsResult | build.js:72-77 | a script is written exactly when it was read, minified, and its target can be written; missing and unreadable scripts are logged as such |
| Build.JsLocal | build.js:65-82 | a script's outcome depends only on dist/js and its own target |
| Build.FinishJs | build.js:72-77 | each minified script is written to dist/js under its own name; a failed one is logged and the others go on; nothing else changes |
| Build.CopyReadyKept | build.js:104-117 | the asset copies stay possible in any tree that keeps the asset paths and has dist as a directory |
| Build.AssetsAfterPublic | build.js:110-117 | after public is copied, src/assets can still be copied |
| Build.CopyAssets | build.js:86-117 | public is mirrored into dist/public and src/assets into dist/assets, each only when it exists: an absent source leaves its destination as it was; below a destination, whatever is not the copy of a source entry is kept; nothing outside the two destinations and dist changes |
| Build.CopiesKeep | build.js:86-117 | the copies keep every entry that is neither dist nor where a copy puts an existing entry of public or src/assets |
| Build.CopyAssetsThenScripts | build.js:72-117 | the copies run, then each minified script is written to dist/js: each script's outcome is the one `JsResult` gives on the tree before the copies (written exactly when it was read, its minifier returned code and its target in dist/js is writable, since the copies touch neither dist/js nor the script targets), and a written one holds its minified code; both trees are mirrored when present; nothing but dist, the written scripts and the copies of existing assets changes |
| Build.PreparedPage | build.js:26-54 | once dist exists, a page is published exactly when it has an output and the original tree has no directory at dist/f |
| Build.LeftAloneKept | build.js:25-117 | every entry the build does not write is kept: anything but dist, dist/js, a written page, a written script and the copy of an existing asset, inside dist as well as outside |
| Build.NothingDeleted | build.js:25-117 | nothing is deleted: every entry of the original tree is still there at the end |
| Build.OutsideDistKept | build.js:25-117 | the build writes only below dist: every other entry of the project, sources included, is kept |
| Build.UnwrittenScriptKept | build.js:65-82 | a script that is not written, missing ones included, leaves its target in dist/js as it was |
| Build.AbsentAssetsKept | build.js:104-117 | an asset tree that does not exist leaves its destination below dist as it was |
| Build.RunBuild | build.js:25-117 | the whole script: every top-level page goes out exactly when it can be read and minified and dist has no directory under its name, and its text is in dist at the end; scripts are read from the original tree and each written one is in dist/js, while an unwritten one leaves its target alone; public and src/assets are mirrored into dist when present and their destinations kept when absent; nothing outside dist changes; dist/js exists; inside dist every entry the build does not write is kept, and no entry of the original tree is deleted |

## Left out

- Rendering and focus are not modelled: `innerHTML` templates, class names, injected style sheets, `focus()`, `scrollIntoView`, the field error elements (`showFieldError`, `clearFieldError`, `focusFirstError`), and the screen-reader announcements. Only the state these set and the logic reads is kept: `hidden`, `aria-pressed`, `aria-invalid`, `aria-expanded`, `disabled`, `tabindex`, the body scroll lock and the banner.
- `submitForm`'s simulated network (`Math.random`, `setTimeout`) and `getFormData`'s timestamps become the boolean `delivered`, because they are randomness and clocks.
- `supportsWebP`'s canvas probe becomes a parameter, because it is a browser API.
- PerformanceObserver metrics, lazy loading and the auto-hide timers are not modelled, because they are timings.
- The two minifiers are functions given to the model. None stands for a minifier that throws.
- `tailwind.config.js` is static configuration and is not part of this model.
- String lengths count Unicode code points, not UTF-16 code units. The length rule of the message textarea differs only for characters outside the Basic Multilingual Plane.
- ContactForms.ValidateEmail, ContactForms.ValidatePhone and ContactForms.ValidateMessage: they are pure functions and do not set or clear `aria-invalid` on blur, as src/js/contact-form.js:156-182 does through lines 210 and 228-229. Nothing reads those blur-time marks: `handleSubmit` marks every control again before `focusFirstError` reads them (src/js/contact-form.js:239-250).
- Galleries.ClassifySwipe: touch coordinates are JavaScript doubles, and the model uses exact `real` arithmetic, so rounding at the 50 px threshold is not modelled.
- Site.EnsureFocusable: tabindex values are integers. The attribute's text form is not modelled.
- Site.TrapTab: the focused element is a link index or None, not a DOM element.
- Galleries.Gallery and Site.Navigation each keep their own `scrollLocked` flag. On the page both write the single `document.body.style.overflow`, so closing the menu (for instance on a resize to 768 px or wider) also unlocks the scroll behind an open lightbox; the model does not capture this shared state.
- Galleries.Gallery.OpenClickedImage and Galleries.Gallery.OpenLightbox take image k to be the image inside item k, one image per item as on the page; an item without an image, on which showImage would throw, is not modelled.
- FileSystem.Disk.ReadDir: the order of the listing is left open, so the processing order of pages and of directory entries is any order.
- Build.RunBuild: the script minifiers' promises are settled after the asset copies, in list order. In Node they settle after the synchronous part in an order that depends on the minifier, and the console log order is not modelled.
- Build.RunBuild: it states the skip/read-error classification of scripts and the contents of every written script. It does not restate exactly when a script write fails; `FinishJs` and `JsResult` state that.
- Build.RunBuild: it requires a tree on which build.js throws no uncaught exception. A file named `dist` makes `mkdirSync` throw. A copy destination on which `copyFileSync` or `mkdirSync` meets an entry of the other kind also throws. The crash itself is not modelled.
- CopyTrees.CopyDir: it requires every entry below src and its counterpart below dest to agree in kind. This also covers an empty source directory whose destination is a file, which the code would copy without throwing.

## Findings

| source | as written | input that shows it | evidently intended | confidence | as-written member | corrected member |
|---|---|---|---|---|---|---|
| src/js/gallery.js:82-99 | `openLightbox(index)` receives the clicked image's index among ALL gallery images, and `showImage(index)` reads `filteredItems[index]` | items with categories a, b, b and filter "b": clicking the second image opens the third item, and clicking the third opens the lightbox without showing it | show the clicked item, at its position among the filtered items | high, not executed | Galleries.OpenLightboxWrongItem | Galleries.OpenClickedShowsClickedItem |
