# Camera capture, submit and reveal — a Dafny model

This project models the client-side logic of the `Camera` component of a
face-photo analysis app (`src/app/components/Camera.js`). The component does four things:

- It captures a still from the camera by centre-cropping the video frame to a
  fixed 720×1280 (portrait) or 1280×720 (landscape) raster.
- It submits the still to an analysis action, tagging the request with an id
  (`rid`).
- It acts on a response only when the response is `ok` and carries the
  recorded id.
- It reveals the returned markup one `<section` part at a time ("typewriter"),
  and sanitises the text it renders.

Modules:

- `Crop` (`crop.dfy`) holds the crop arithmetic of `capturePhoto`. The
  arithmetic is exact: `vw / vh > tw / th` becomes `vw * th > vh * tw`, and
  `Math.round` becomes rounding half up of a rational.
- `Sanitize` (`sanitize.dfy`) holds `cleanUpHTML`. Its two regular
  expressions are given their meaning as predicates, and the rewrites are
  proved to agree with them.
- `Sections` (`sections.dfy`) holds `raw.split(/(?=<section)/g).filter(Boolean)`,
  modelled on the split loop of ECMAScript. A theorem shows that it is the only
  segmentation with the properties it promises.
- `Session` (`session.dfy`) holds the component state as the class
  `CameraSession`. Its methods are the handlers: `capturePhoto`, `retake`,
  `onSubmit`, the response effect, and the `step` callback of the reveal. A
  `step` still waiting on `setTimeout` is a pending entry in `timers`.
- `Scenarios` (`scenarios.dfy`) holds event sequences on one session, proved
  from the handlers' contracts alone.
- `Wrappers` (`wrappers.dfy`) holds `Option`, for JavaScript's
  `null`/`undefined`.

## Behaviour worth noting

- `cleanUpHTML` (Camera.js:22-25) is not idempotent. `"a undefined undefined"`
  becomes `"a undefined "`, and a second pass gives `"a "`
  (`Sanitize.ExampleNotIdempotent`).
- The first replacement (Camera.js:24) removes `undefined` and the white space
  after it, but not the white space before it: `"bar undefined"` becomes
  `"bar "` (`Sanitize.ExampleSpaceKept`).
- The second replacement (Camera.js:25) matches `</section>` in any case and
  writes it back in lower case.
- The response effect (Camera.js:134-176) returns no cleanup function, so a
  `step` already scheduled with `setTimeout` (lines 168, 173) keeps running.
  After a retake, the pending `step` of the earlier response still appends its
  next part (`Scenarios.RevealSurvivesRetake`). A second accepted response
  starts a second timeline beside the first.
- `retake` (Camera.js:105-113) does not reset `ridRef`. A response to a request
  sent before the retake is still accepted and revealed with no photo shown
  (`Scenarios.ResponseAfterRetakeRevealed`).
- A response rejected by the guard at Camera.js:136 returns before
  `setIsLoading(false)` (line 142), so `isLoading` stays as it was.
- `ridRef` starts as `""` (Camera.js:38), so before the first submit an `ok`
  response without an id would pass the guard at line 136. The action's initial
  state (lines 32-36) is not `ok`.
- The crop of Camera.js:79-92 keeps at least one full dimension of the frame,
  and sometimes both: an 18×10 frame in landscape is cropped to the whole frame
  (`Crop.BothDimensionsCanBeFull`).
- `htmlToRender` (Camera.js:178-180) prefers `typedHtml` over `responseHtml`,
  so once a reveal ends the revealed text is rendered. After a reveal with no
  other event in between, the two are equal
  (`Session.CameraSession.RespondAndReveal`).

## Model

| member | source | states |
|---|---|---|
| `Crop.TargetFor` | src/app/components/Camera.js:73-74 | the target is 720×1280 in portrait and 1280×720 otherwise, so it is taller than wide exactly in portrait |
| `Crop.Round` | src/app/components/Camera.js:86-91 | `Math.round(p/q)` is the integer r with r − ½ ≤ p/q < r + ½ |
| `Crop.CapturePlan` | src/app/components/Camera.js:94-98 | the raster drawn is 720×1280 in portrait and 1280×720 otherwise, whatever the frame size |
| `Crop.CropRect` | src/app/components/Camera.js:76-92 | a relatively wider frame (`vw·th > vh·tw`) keeps its full height with y = 0, w = round(vh·tw/th) and x = round((vw−w)/2); otherwise it keeps its full width with x = 0, h = round(vw·th/tw) and y = round((vh−h)/2). `CropWithinFrame` proves what this means for the two targets |
| `Crop.CropWithinFrame` | src/app/components/Camera.js:79-92 | for every frame size the crop lies inside the frame, is centred to within one pixel, keeps at least one full dimension, is non-empty for a non-empty frame, and matches the target aspect up to the rounding of one side |
| `Crop.WiderSide` | src/app/components/Camera.js:84-87 | in the wider branch, 0 ≤ sw ≤ vw, sx ≥ 0, sx + sw ≤ vw, and the horizontal margins differ by at most one |
| `Crop.NarrowerSide` | src/app/components/Camera.js:88-91 | in the other branch, 0 ≤ sh ≤ vh, sy ≥ 0, sy + sh ≤ vh, and the vertical margins differ by at most one |
| `Crop.BothDimensionsCanBeFull` | src/app/components/Camera.js:84-87 | an 18×10 landscape frame is wider than 16:9, yet its crop is the whole frame |
| `Sanitize.TrimEnd` | src/app/components/Camera.js:24-25 | the length without trailing white space: the rest is all white space, and the character before it is not |
| `Sanitize.StripTrailingUndefined` | src/app/components/Camera.js:24 | when `/\bundefined\b\s*$/i` matches at p, the result is the string before p; when it does not match, the string is unchanged |
| `Sanitize.UndefinedMatchUnique` | src/app/components/Camera.js:24 | that expression matches at most at one index: nine before the end of the trimmed string |
| `Sanitize.CollapseSectionUndefined` | src/app/components/Camera.js:25 | when `/<\/section>\s*undefined\s*$/i` matches at p, the result is the string before p followed by a lower-case `</section>`; otherwise the string is unchanged |
| `Sanitize.SectionMatchUnique` | src/app/components/Camera.js:25 | that expression matches at most once, at a place fixed by the trimmed ends |
| `Sanitize.CleanUpHtml` | src/app/components/Camera.js:22-25 | `null`/`undefined` gives `""`; the result is never longer than the input |
| `Sanitize.RemovesTrailingWord` | src/app/components/Camera.js:22-25 | a trailing `undefined` in any case, at the start or after a non-word character, is removed with the white space after it, and the white space before it is kept |
| `Sanitize.KeepsGluedWord` | src/app/components/Camera.js:22-25 | a trailing `xundefined` (a word character before it), with or without white space after it, is left unchanged |
| `Sanitize.KeepsStringWithoutTrailingWord` | src/app/components/Camera.js:22-25 | a string whose trimmed end is not `undefined` (such as `undefinedx`) matches neither expression and is left unchanged |
| `Sanitize.ExampleSectionClose` | src/app/components/Camera.js:22-25 | `<section>foo</section>undefined` becomes `<section>foo</section>` |
| `Sanitize.ExampleSpaceKept` | src/app/components/Camera.js:22-25 | `bar undefined` becomes `bar ` |
| `Sanitize.ExampleGlued` | src/app/components/Camera.js:22-25 | `bar undefinedx` is unchanged |
| `Sanitize.ExampleFirstPass` | src/app/components/Camera.js:22-25 | `a undefined undefined` becomes `a undefined ` |
| `Sanitize.ExampleSecondPass` | src/app/components/Camera.js:22-25 | `a undefined ` becomes `a ` |
| `Sanitize.ExampleNotIdempotent` | src/app/components/Camera.js:22-25 | a second pass of the sanitiser can change its output again |
| `Sections.SplitFrom` | src/app/components/Camera.js:154 | from piece start p, the split gives non-empty pieces that concatenate to the rest of the string; every piece after the first starts with `<section`, and no piece holds `<section` past index 0 |
| `Sections.LookaheadSplit` | src/app/components/Camera.js:154 | `split` gives at least one piece and the pieces rejoin to the string; `""` gives the single empty piece, and a non-empty string no empty piece |
| `Sections.NonEmpty` | src/app/components/Camera.js:154 | `filter(Boolean)` gives a subsequence of the parts (order kept) holding each non-empty part as often as the input and no empty one; the concatenation is unchanged |
| `Sections.NonEmptyUnique` | src/app/components/Camera.js:154 | any subsequence of the parts with exactly those contents is `NonEmpty(parts)`, so the filter is fully determined |
| `Sections.Sections` | src/app/components/Camera.js:154 | the parts are non-empty and concatenate back to `raw`; each part after the first starts with `<section` and none holds it elsewhere; on a non-empty string the filter removes nothing, and `""` gives no parts |
| `Sections.SectionsUnique` | src/app/components/Camera.js:154 | any list of parts with those properties is the split, so the split is the unique such segmentation |
| `Sections.FirstAndRest` | src/app/components/Camera.js:154-175 | the first part followed by the concatenation of all later parts is `raw`, which the reveal relies on |
| `Sections.ExampleTwoSections` | src/app/components/Camera.js:154 | two `<section>` blocks split into exactly those two blocks |
| `Session.RenderedHtml` | src/app/components/Camera.js:178-180 | the sanitised revealed text while there is any; `""` while typing with nothing revealed; otherwise the sanitised response |
| `Session.RawHtml` | src/app/components/Camera.js:139 | the response markup when `html` is a string, `""` when it is missing or not a string |
| `Session.BlankWhenTrimmedEmpty` | src/app/components/Camera.js:144 | `IsBlank`, the model of `!raw.trim()`, holds exactly when nothing is left after cutting the trailing white space |
| `Session.Accepts` | src/app/components/Camera.js:136-137 | a response is acted on only if `ok`; with an id, exactly when it equals the recorded id; without one, exactly when no id is recorded |
| `Session.CameraSession.constructor` | src/app/components/Camera.js:38-46 | all text fields empty, flags false, no recorded id, no pending reveal |
| `Session.CameraSession.CapturePhoto` | src/app/components/Camera.js:60-103 | no video, no canvas or zero width: the not-ready message, and the photo unchanged. Otherwise: error cleared, photo set, and the crop drawn is `CapturePlan`, inside the frame and centred. Nothing else changes |
| `Session.CameraSession.Retake` | src/app/components/Camera.js:105-113 | photo, response, revealed text, typing, loading and error are all reset; the recorded id and the pending reveals stay |
| `Session.CameraSession.Submit` | src/app/components/Camera.js:115-132 | no photo: nothing is sent, the no-photo message is set, and the id is not recorded. Otherwise: the photo is sent with the new id, the id is recorded, loading and typing are set, and the text and error are cleared |
| `Session.CameraSession.OnResponse` | src/app/components/Camera.js:134-153 | a response that is not `ok` or carries another id changes nothing (loading included). An accepted blank one clears the result and stops loading and typing. An accepted one with content is stored, its first part is revealed at once, and a new reveal timeline is pending. Earlier timelines stay |
| `Session.CameraSession.StartReveal` | src/app/components/Camera.js:154-158 | the reveal starts from empty text with typing on, then runs `step` once: a new timeline at part 1 with the first part shown |
| `Session.CameraSession.Step` | src/app/components/Camera.js:160-174 | past the last part, typing ends and the timeline is dropped; otherwise the next part is appended and the counter advances |
| `Session.CameraSession.Advance` | src/app/components/Camera.js:160-175 | after k firings with parts left, the text has gained exactly the next k parts and typing is unchanged; one firing past the end stops typing with all parts appended |
| `Session.CameraSession.FinishReveal` | src/app/components/Camera.js:160-174 | once the first part is shown, the remaining firings complete the text to the whole response, end typing and drop the timeline |
| `Session.CameraSession.RespondAndReveal` | src/app/components/Camera.js:134-180 | an accepted response with content, revealed with no other event in between, ends with `typedHtml == responseHtml == raw`, typing and loading off, and the sanitised raw text rendered; a rejected one changes nothing |
| `Scenarios.NotReadyThenSubmit` | src/app/components/Camera.js:60-68 | capturing from a zero-width video leaves no photo, so a submit then sends nothing and reports the missing photo |
| `Scenarios.LateStaleResponseIgnored` | src/app/components/Camera.js:125-137 | with two submissions under different ids, a late response with the older id leaves the newer result and its reveal in place |
| `Scenarios.RevealSurvivesRetake` | src/app/components/Camera.js:105-176 | after a retake cleared a half-done reveal, the pending `step` of the earlier response still writes its second part |
| `Scenarios.ResponseAfterRetakeRevealed` | src/app/components/Camera.js:105-176 | after submit then retake, the response to that submit is still accepted and fully revealed, loading ends, and no photo is shown |

## Left out

- `usePotrait` (orientation through `matchMedia`, lines 7-20) is not modelled. Orientation is a boolean parameter of `CapturePhoto`.
- The `videoConstrains` hints passed to the camera (lines 50-58) are media configuration and are not modelled.
- `Webcam`, `canvas.drawImage` and `canvas.toDataURL("image/jpeg", 0.9)` are foreign media calls. The `drawImage` arguments are returned as a `Crop.Draw`. The encoded image is an opaque non-empty parameter that the model does not relate to the pixels.
- `analyzeAction` and `React.useActionState` are a server action outside this model. Each new action state is an input `Response` of `OnResponse`. The initial state `{ok: false}` is never acted on.
- The request id `${Date.now()}-${Math.random()...}` is an opaque non-empty parameter of `Submit`. Writing it into the hidden form field is modelled as the `rid` of the returned `Request`.
- `setTimeout` delays (160 ms, or 0 ms for an empty part) are not modelled. Firing a pending `step` is a call of `Step` with its handle, in any order the caller chooses. Neither are `scrollTo`, `scrollIntoView` or `console.log`.
- Floating point is not modelled: the crop uses exact rationals. Floating-point rounding of `vh * (tw / th)` could differ from the exact value by one pixel on a rounding tie.
- `String(x)` of a non-string `rid` (Camera.js:136) is not modelled, apart from a missing id (`Option.None`), which gives `""`. A non-string `html` becomes `""` through the `typeof` test (line 139), and `Option.None` models it.
- Strings are sequences of Unicode scalar values, not UTF-16 code units. Lone surrogates are not modelled.
- The JSX is not modelled. This includes the disabled state of the submit button (`!photoDataUrl || isLoading`, line 235) and the loading spinner shown instead of the result. `Submit` models `onSubmit` whatever the button state, and `Session.RenderedHtml` models `htmlToRender` only.
- `src/app/components/Footer.js` is static markup and is not part of this model.
