# Portfolio front-end behaviour, modelled in Dafny

This project models the behaviour of a portfolio website's three script files. Each
file is modelled in its own form and the properties its code promises are proved.

- **`particles.dfy`, module `Particles`: the hero particle field** (`ParticleSystem` in
  `assets/js/animations.js`).
  - Fifty particle records are created from random draws inside the canvas.
  - Each frame moves every particle by its speed and wraps it at the canvas edges.
  - During a particle's turn it is tested against every later particle; a connecting
    line is drawn for a pair closer than 150 px, with an alpha that fades with distance.
  - The class keeps the canvas size and the particle list as fields.
  - `Animate` is the frame loop. It is proved equal to the value-level frame (`Advanced`
    for the positions, `FrameLinks` for the lines).
  - Lemmas prove facts about the lines of one frame: each pair is examined exactly once,
    in order, with the first particle already moved and the second not yet moved.
- **`typewriter.dfy`, module `Typing`: the typing effect** (`TypeWriter` in
  `animations.js`).
  - One `type()` call is one step: it extends or shortens the text, switches mode, and
    returns the delay before the next call.
  - The text is always a prefix of the current word.
  - Lemmas cover a whole typing phase, a whole deleting phase and a complete word cycle.
- **`form.dfy`, module `ContactForm`: the contact-form validator** (`FormValidator` in
  `assets/js/form.js`).
  - It models trimming, the required, email and minimum-length rules, and label lookup.
  - The error class and the adjacent error box each control is left with are modelled.
  - `validateForm` has no early exit, and the submit gate opens only when it passes.
  - The hand-written email check is proved to accept exactly the strings the regular
    expression `^[^\s@]+@[^\s@]+\.[^\s@]+$` matches.
- **`navigation.dfy`, module `Navigation`: the scroll-position decisions** of
  `assets/js/main.js`.
  - The navbar `scrolled` threshold (50) and the scroll-top threshold (300).
  - `highlightNavigation`: the last section in document order whose range contains the
    offset decides which nav links are active.
  - The in-page anchor click: its scroll target and whether it closes the menu.
- **`wrappers.dfy`**: the `Option` type.

Random numbers, canvas sizes, the scroll offset, element geometry and label lookups are
parameters. Two points of the code shape the particle model:

- **Resize.** `resize` only re-measures the canvas (`animations.js:28-31`); it does not
  touch the particles. `Resize` keeps them, so after a shrink they may sit outside the
  new canvas until their next wrap.
- **Which particles a line compares.** During particle `i`'s turn, `i` has already been
  moved this frame and the later particles have not (`animations.js:49-80`).
  `FrameLinks` and `FrameLinksExact` state the lines that way.

## Model

| member | source | states |
|---|---|---|
| Particles.ScaledUnit | assets/js/animations.js:36-37 | a draw in [0,1) times the canvas extent lies in [0, extent], strictly below it when the extent is positive |
| Particles.NewParticle | assets/js/animations.js:35-42 | a new particle lies inside the canvas; size in [1,3), both speeds in [-0.25,0.25), opacity in [0.2,0.7) |
| Particles.Spawn | assets/js/animations.js:34-43 | createParticles makes one particle per draw, in draw order |
| Particles.Wrap | assets/js/animations.js:55-58 | the wrapped coordinate lies in [0, extent]; below 0 it becomes the far edge, beyond the far edge it becomes 0, inside it is unchanged |
| Particles.Moved | assets/js/animations.js:51-58 | a moved particle is inside the canvas, keeps size, speeds and opacity, and its coordinates are position plus speed, wrapped |
| Particles.SqDist | assets/js/animations.js:68-70 | the squared distance dx·dx + dy·dy; LinkedIffNear relates it to the true distance |
| Particles.Linked | assets/js/animations.js:68-72 | the connection test on squared distances; its meaning, "distance below 150", is stated by LinkedIffNear |
| Particles.Advanced | assets/js/animations.js:49-58 | after a frame the list has the same length, every particle is inside the canvas and each one is its own moved self |
| Particles.LinkedIffNear | assets/js/animations.js:68-72 | the squared-distance test holds exactly when the true distance is below 150 |
| Particles.Alpha | assets/js/animations.js:74 | a line's alpha is in (0, 0.1] below 150 px; it is 0.1 at distance 0 and 0 at 150 |
| Particles.AlphaDecreasing | assets/js/animations.js:74 | alpha strictly decreases as the distance grows |
| Particles.RowLinks | assets/js/animations.js:67-80 | the lines of one particle's turn; what they are is stated by RowLinksShape |
| Particles.LinksBefore | assets/js/animations.js:49-81 | the lines of the first i turns of a frame; what they are is stated by LinksBeforeShape |
| Particles.FrameLinks | assets/js/animations.js:49-81 | the lines of a whole frame; what they are is stated by FrameLinksExact |
| Particles.RowLinksShape | assets/js/animations.js:67-80 | one particle's turn yields its lines in increasing order, exactly for the later particles within range |
| Particles.LinksBeforeShape | assets/js/animations.js:49-81 | after the first i turns the lines are strictly ordered, and exactly the in-range pairs whose first index is below i |
| Particles.FrameLinksExact | assets/js/animations.js:49-81 | in one frame each pair i < j gets a line iff moved i is within range of unmoved j; the lines are ordered, none repeats, all indices are in bounds |
| Particles.FrameAlphaRange | assets/js/animations.js:66-79 | every line drawn in a frame has an alpha in (0, 0.1] |
| Particles.ParticleSystem.constructor | assets/js/animations.js:12-26 | construction measures the canvas, creates 50 particles and runs one frame; the particles are the spawned ones advanced once and all inside the canvas |
| Particles.ParticleSystem.Resize | assets/js/animations.js:28-31 | the canvas takes the measured size, the particles are untouched, and the 50-particle invariant holds afterwards iff it held before |
| Particles.ParticleSystem.CreateParticles | assets/js/animations.js:33-44 | the particle list grows by exactly the spawned particles and the canvas size is unchanged |
| Particles.ParticleSystem.ConnectionsOf | assets/js/animations.js:67-80 | the lines from particle i to the slice after it are RowLinks of the current list; nothing changes |
| Particles.ParticleSystem.Animate | assets/js/animations.js:46-84 | one frame, in place: the 50-particle invariant is kept, the new list is Advanced of the old one, the returned lines are FrameLinks of the old list, the canvas size is unchanged |
| Typing.CurrentWord | assets/js/animations.js:128-129 | the word being typed, words[wordIndex % length]; the step lemmas TypeStepSpec and WordCycle state what is done with it |
| Typing.Substring | assets/js/animations.js:131-135 | substring(0, end) clamps end into [0, length] |
| Typing.TypeStep | assets/js/animations.js:127-155 | a type() step keeps the text a prefix of the current word |
| Typing.TypeStepSpec | assets/js/animations.js:127-155 | typing adds one character, deleting removes one; the full word switches to deleting after the configured wait; the empty text moves to the next word after 500 ms; otherwise the delay is 150 typing and 75 deleting |
| Typing.Run | assets/js/animations.js:154 | any number of type() calls keeps the text a prefix of the current word |
| Typing.TypingPhase | assets/js/animations.js:131-147 | from a proper prefix in typing mode, the rest of the word is typed and deleting starts |
| Typing.DeletingPhase | assets/js/animations.js:131-152 | from a non-empty text in deleting mode, the text is deleted; then typing mode resumes on the next word |
| Typing.WordCycle | assets/js/animations.js:127-155 | from empty text on word i, 2·length calls (2 for an empty word) lead to empty text in typing mode on word i+1 |
| Typing.TypeWriter.constructor | assets/js/animations.js:117-125 | the wait defaults to 3000; the writer starts at the empty text on word 0 in typing mode and performs the first step at once |
| Typing.TypeWriter.Type | assets/js/animations.js:127-155 | one call, in place: the new state and returned delay are TypeStep of the old state, and the invariant is kept |
| ContactForm.IsWhitespace | assets/js/form.js:55 | the ECMAScript white-space and line-terminator set that trim() removes and \s matches (also form.js:67); TrimSpec and CheckFieldRules state what it decides |
| ContactForm.TrimStartSpec | assets/js/form.js:55 | dropping leading white space keeps a suffix; what it drops is all white space, and the result does not start with white space |
| ContactForm.TrimEndSpec | assets/js/form.js:55 | dropping trailing white space keeps a prefix; what it drops is all white space, and the result does not end with white space |
| ContactForm.TrimSpec | assets/js/form.js:55 | trim yields the middle piece between two white-space runs; it is empty iff the value is all white space, and otherwise has no white space at either end |
| ContactForm.Trim | assets/js/form.js:55 | trim of the value; its meaning is stated by TrimSpec and TrimIdempotent |
| ContactForm.Utf16Length | assets/js/form.js:74 | value.length in UTF-16 code units; its meaning is stated by Utf16LengthBounds |
| ContactForm.Utf16LengthBounds | assets/js/form.js:74 | the code-unit length lies between the character count and twice it, and equals the character count when no character lies outside the Basic Multilingual Plane |
| ContactForm.FiveAstralCharsAreTenUnits | assets/js/form.js:74 | an example of Utf16Length, not a general property: five U+1F600 characters have length 10 |
| ContactForm.TrimIdempotent | assets/js/form.js:55 | trimming twice equals trimming once |
| ContactForm.Plain | assets/js/form.js:67 | the class [^\s@] of the email regular expression; MatchesEmailPattern, EmailIffPattern and CheckFieldRules state what it decides |
| ContactForm.IndexOf | assets/js/form.js:67 | a found position is inside the string |
| ContactForm.IndexOfSpec | assets/js/form.js:67 | no position iff the character is absent; otherwise the position of its first occurrence |
| ContactForm.IndexOfFirst | assets/js/form.js:67 | a position holding c with no earlier c is the one found |
| ContactForm.EmailToPattern | assets/js/form.js:67-68 | a value the hand-written check accepts matches the email regular expression |
| ContactForm.PatternToEmail | assets/js/form.js:67-68 | a value matching the email regular expression is accepted by the hand-written check |
| ContactForm.IsEmail | assets/js/form.js:67-68 | the executable email check; its meaning is stated by EmailIffPattern |
| ContactForm.MatchesEmailPattern | assets/js/form.js:67 | the structural reading of the email regular expression; related to the check by EmailIffPattern |
| ContactForm.EmailIffPattern | assets/js/form.js:67-68 | the hand-written check and the regular expression agree on every string |
| ContactForm.LabelIndex | assets/js/form.js:89 | a found label index is in range |
| ContactForm.LabelIndexSpec | assets/js/form.js:89 | no index iff no label is for the id; otherwise the first such label |
| ContactForm.FieldLabel | assets/js/form.js:88-91 | getFieldLabel; its meaning is stated by FieldLabelSpec |
| ContactForm.FieldLabelSpec | assets/js/form.js:88-91 | the first label for the field's id gives the text; with no such label, the field's name |
| ContactForm.CheckField | assets/js/form.js:54-78 | validateField's decision on a control; its meaning is stated by CheckFieldRules |
| ContactForm.CheckValue | assets/js/form.js:60-77 | the same decision on label, name and trimmed value; its meaning is stated by CheckFieldRules, and AstralMessageAccepted gives an example |
| ContactForm.AstralMessageAccepted | assets/js/form.js:74 | an example of CheckFieldRules, not a general property: a message of five U+1F600 characters (ten code units) passes the length rule |
| ContactForm.CheckFieldRules | assets/js/form.js:54-78 | on the trimmed value, in order: empty (all white space) means "<label> is required"; for email, valid iff the regex matches; for message, valid iff at least 10 UTF-16 code units; otherwise valid |
| ContactForm.ShowError | assets/js/form.js:93-105 | showError; its meaning is stated by ShowErrorSpec and ShowErrorReusesBox |
| ContactForm.ShowErrorSpec | assets/js/form.js:93-105 | the field is marked and the box right after it shows the message, reused or newly inserted; nothing else changes and no boxes get stacked |
| ContactForm.ShowErrorReusesBox | assets/js/form.js:96-104 | a second error replaces the first in the same box; the number of following elements stays the same |
| ContactForm.ClearError | assets/js/form.js:107-113 | clearError; its meaning is stated by ClearErrorSpec and ClearThenShow |
| ContactForm.ClearErrorSpec | assets/js/form.js:107-113 | the field is unmarked and an adjacent box is hidden but kept with its message; nothing else changes |
| ContactForm.ClearThenShow | assets/js/form.js:93-113 | showing an error after clearing gives what showing it directly gives |
| ContactForm.Validated | assets/js/form.js:79-85 | a control after validateField; its meaning is stated by ValidatedSpec and ValidatedIdempotent |
| ContactForm.SelectedByValidateForm | assets/js/form.js:43 | the input[required] and textarea[required] selection; used by ValidateIfSelected and ValidateForm |
| ContactForm.AfterValidateForm | assets/js/form.js:45-49 | a control as one pass of the forEach leaves it: validated when selected, untouched otherwise; ValidateForm's ensures states that every control ends this way |
| ContactForm.PassesForm | assets/js/form.js:45-49 | a control the forEach does not reject: unselected, or selected with a valid verdict; ValidateForm's ensures states that the result is true iff every control passes |
| ContactForm.ValidatedSpec | assets/js/form.js:79-83 | after validateField the field is marked iff it is invalid, and its attributes are unchanged |
| ContactForm.ValidatedIdempotent | assets/js/form.js:54-86 | validating a field twice leaves it as validating it once |
| ContactForm.FormValidator.constructor | assets/js/form.js:12-17 | the validator holds the form's controls and labels |
| ContactForm.FormValidator.ValidateField | assets/js/form.js:54-86 | the result is the verdict on the k-th control; only that control changes, to its validated self |
| ContactForm.FormValidator.ClearErrorOf | assets/js/form.js:26 | the input listener clears the k-th control's error and changes nothing else |
| ContactForm.FormValidator.ValidateIfSelected | assets/js/form.js:45-49 | a required input or textarea is validated, any other control is left alone; false only for a required control that fails |
| ContactForm.FormValidator.ValidateForm | assets/js/form.js:41-52 | every required control is validated, with no early exit; the result is true iff all of them pass |
| ContactForm.FormValidator.HandleSubmit | assets/js/form.js:30-39 | the browser's own submission is always cancelled; the form is submitted iff every required control passes, and each control is left as validateForm leaves it |
| Navigation.Anchor | assets/js/main.js:93 | the href `#` followed by the section id that marks a link as the section's; HighlightedSpec states which links it makes active |
| Navigation.Matches | assets/js/main.js:86-90 | the range test offsetTop-100 < y <= offsetTop-100+offsetHeight; used by LastMatchSpec and HighlightedSpec |
| Navigation.LastMatch | assets/js/main.js:85-98 | a chosen section index is in range |
| Navigation.LastMatchSpec | assets/js/main.js:85-98 | no section iff none matches the offset; otherwise a matching section with no matching section after it |
| Navigation.Activated | assets/js/main.js:91-96 | activation keeps the number of nav items |
| Navigation.ActivatedTwice | assets/js/main.js:91-96 | a later activation overrides an earlier one: only the last matching section's links stay active |
| Navigation.Highlighted | assets/js/main.js:82-99 | the nav items after highlightNavigation; its meaning is stated by HighlightedSpec |
| Navigation.HighlightedSpec | assets/js/main.js:82-99 | with no matching section the nav items are unchanged; otherwise exactly the items whose href is "#"+id of the last matching section are active, and every href is unchanged |
| Navigation.HighlightedIdempotent | assets/js/main.js:82-99 | highlighting twice at one offset equals highlighting once |
| Navigation.HighlightedAfterMatch | assets/js/main.js:85-97 | activating a matching section after a prefix equals highlighting the prefix extended by that section |
| Navigation.AnchorClick | assets/js/main.js:28-53 | href "#" is followed; otherwise the click is prevented; with a target it scrolls to offsetTop minus the navbar height (0 without a navbar) and closes the menu iff shown; without a target nothing scrolls |
| Navigation.Page.constructor | assets/js/main.js:60-80 | the script sets lastScroll to 0; the nav items and both classes start as the markup has them |
| Navigation.Page.OnScrollNavbar | assets/js/main.js:63-74 | with a navbar, scrolled iff the offset exceeds 50; no navbar means no change; lastScroll records the offset |
| Navigation.Page.OnScrollTop | assets/js/main.js:147-153 | with the button present, visible iff the offset exceeds 300; no button means no change |
| Navigation.Page.ActivateSection | assets/js/main.js:91-96 | the nav items become Activated of the old items for the section id; nothing else changes |
| Navigation.Page.HighlightNavigation | assets/js/main.js:82-99 | with the section geometry read at this call, the nav items become Highlighted of the old ones at the offset; nothing else changes |
| Navigation.Page.OnScroll | assets/js/main.js:63-209 | the four scroll listeners registered at main.js:63, 101, 147 and 209 run in that order; whether the throttled extra highlight passes or not, the nav items end up Highlighted once and both flags follow their thresholds |

## Left out

- Drawing: canvas calls, `requestAnimationFrame` scheduling and the resize listener registration (`animations.js:25, 47, 61-64, 73-78, 83`). The model returns the lines a frame draws instead of drawing them.
- Particles.LinkedIffNear: `Math.sqrt` is not modelled. The model compares squared distances; the lemma relates the test to any non-negative d with d·d equal to the squared distance.
- Floating point: all coordinates and offsets are exact reals or integers. IEEE rounding is not modelled.
- `Math.random`: each draw is a parameter in [0, 1).
- Typing.TypeWriter.constructor: `parseInt(wait, 10)` is not modelled. The wait is already a natural; a non-numeric wait (NaN delay) is not covered. The writer cannot be built with an empty word list, whose `type()` call would read an undefined word.
- Setting the element's `textContent` and the `setTimeout` rescheduling: `Type` returns the delay instead.
- The commented-out TypeWriter start-up, mouse parallax, button ripple and the tilt effect (`animations.js:98-111, 158-200` and after).
- `submitForm`, `sendFormData`, `showSuccess`, `showErrorMessage` and the loading button: asynchronous network simulation and DOM construction. `HandleSubmit` only says whether submission starts.
- ContactForm.FormValidator.constructor: `getElementById` and listener registration (`form.js:12-28`) are not modelled. The controls and labels are passed in; no form means no validator.
- The text of a label is taken as given; `textContent` of nested markup is not modelled.
- The email rule is stated on a structural reading of the regular expression. Regular-expression matching in general is not modelled.
- main.js: the loading screen, the reveal, timeline and skill-bar `IntersectionObserver`s, `debounce`, the body of `throttle`, lazy images and the CDN script, and `console.log` (`main.js:11-18, 107-140, 162-194, 214-226`). These are timers, browser observers or resource loading. The throttle enters only as the `throttleOpen` parameter of `Page.OnScroll`.
- The scroll-top button's click handler (`main.js:155-160`) and smooth-scroll animation: `AnchorClick` returns the target offset only.
- Closing the mobile menu through `bootstrap.Collapse` is reported as a flag of the click outcome.
- `document.querySelector(href)` throwing on an invalid selector is not modelled; the target is a parameter.
- Typing.TypeStep: lengths and substring positions count Unicode characters, not UTF-16 code units as `length` and `substring` do (`animations.js:132-134`). For a word with characters outside the Basic Multilingual Plane, JavaScript shows half a surrogate pair at some steps and takes one step per code unit; the model takes one step per character. Dafny strings cannot hold a lone surrogate.
- Typing.WordCycle: for the same reason, the 2·length step count is in characters; for a word with characters outside the Basic Multilingual Plane, JavaScript needs 2 steps per code unit.
- ContactForm.CheckFieldRules: the length rule counts UTF-16 code units (`Utf16Length`), as form.js:74 does. A value holding a lone surrogate cannot be represented. Trimming and the email rule do not depend on the difference, because characters outside the Basic Multilingual Plane are neither white space nor '@'.
- ContactForm.FieldLabel: the label is matched by comparing raw id strings. form.js:89 builds the selector `label[for="${field.id}"]`, which throws or matches a different label when the id contains `"` or `\`; that case is not modelled.
- ContactForm.Field: each control carries its own list of following elements. In the DOM, controls with the same parent share one sibling list, so a box inserted after one control also appears after the controls before it (`form.js:96-100`). The model does not capture that sharing.
- Particle records are values in a sequence. The source mutates the objects in place, but nothing in it aliases them, so no sharing is modelled.
