# Wedding site logic, modelled in Dafny

The wedding site is a single React page, `src/App.tsx`, plus a separate
entourage page. Almost all of it is layout. This project models the parts of
the page that compute something, and proves what they promise.

- **Pencil-sketch generator** (`generateSketch`). It is the one algorithm on
  the page and is modelled imperatively:
  - a grayscale loop fills a buffer of luma values;
  - a loop paints the output buffer opaque white;
  - nested row and column loops run a 3x3 Sobel convolution over every interior pixel;
  - each interior pixel gets `255 - clamp(0.9 * |gradient|)`, stored as a
    clamped byte, with alpha 255.

  The methods in `SketchFilter` work on arrays and are proved to produce the
  buffers that `SketchSpec` defines pixel by pixel. The properties are proved
  about `SketchSpec`:
  - the frame stays opaque white;
  - images under 3 pixels wide or high come out white;
  - every read and write is in bounds;
  - both kernels weigh to zero, so flat regions come out white;
  - stronger edges come out darker;
  - on a sharp black-to-white step (`sketch_step.dfy`), the pixels either
    side of the step come out black and the flat pixels white.
- **RSVP form** (`handleSubmit` and the attendance select). This covers the
  six validation checks with their exact messages, and the alert that shows
  the first failure. It also covers the payload built when every check passes,
  including the posted name `"Last, First"` from trimmed names, and the reset
  of the dependent fields when attendance changes away from "Yes".
- **Hash routing**. The route is `hash.replace('#/', '').replace('#', '') || 'home'`,
  and the entourage page is shown for exactly `"entourage"`. JavaScript's
  `trim` and `replace` are modelled in `JsString`, with the exact ECMAScript
  whitespace set.
- **Entourage grouping**. The sections are folded into lists keyed by
  `groupHeading || 'Other'`, then listed by `Object.entries`. Keys that are
  array indices come first in ascending numeric order, and the other keys
  follow in the order they were created.
- **QR download status**. This covers the status record's updaters, including
  the timers that clear a status only if it is still the one they were set for.
- **Navigation fade gradients**. The two fade flags are computed from the
  scroller's measurements.

Files: `js_string.dfy`, `route.dfy`, `rsvp.dfy`, `entourage.dfy`,
`qr_status.dfy`, `nav_gradient.dfy`, `sketch_spec.dfy`, `sketch_filter.dfy`,
`sketch_step.dfy`,
`option.dfy` (the shared `Option` type).

## Model

| member | source | states |
|---|---|---|
| JsString.SkipBlanks | src/App.tsx:387-388 | the index found is the first non-blank at or after the start, and everything skipped is blank |
| JsString.SkipBlanksBack | src/App.tsx:387-388 | the index found is one past the last non-blank before the end, and everything skipped is blank |
| JsString.Trim | src/App.tsx:387-388 | `s.trim()` only removes characters, and returns a string it does not shorten unchanged |
| JsString.TrimSplits | src/App.tsx:387-388 | `trim` cuts a string into a blank prefix, the kept part and a blank suffix |
| JsString.TrimKeepsNoBlankEnds | src/App.tsx:401-404 | the trimmed text neither starts nor ends with a blank |
| JsString.TrimEmptyIffBlank | src/App.tsx:387-388 | `!s.trim()` holds exactly when every character of `s` is whitespace |
| JsString.TrimIdempotent | src/App.tsx:401-404 | trimming an already trimmed name changes nothing |
| JsString.IndexFrom | src/App.tsx:103 | the result is -1 or an occurrence at or after `from`, and no earlier occurrence exists from `from` on |
| JsString.IndexOf | src/App.tsx:103 | the result is -1 or the leftmost occurrence of the pattern |
| JsString.RemoveFirst | src/App.tsx:103 | `s.replace(pat, '')` is shorter by `pat` exactly when `pat` occurs, and changes `s` exactly when a non-empty `pat` occurs |
| JsString.RemoveLeading | src/App.tsx:103 | `replace` of a pattern that starts the string removes exactly that prefix |
| JsString.RemoveAtFirstOccurrence | src/App.tsx:103 | `replace(pat, '')` cuts out the leftmost occurrence and keeps both sides |
| JsString.RemoveAbsent | src/App.tsx:108 | `replace` of a pattern that does not occur returns the string unchanged |
| Route.RouteOf | src/App.tsx:108 | the route is never empty: an empty remainder becomes "home" |
| Route.PageOf | src/App.tsx:430-432 | the entourage page is shown exactly for route "entourage" |
| Route.SlashHashRoute | src/App.tsx:103 | "#/name" routes to "name" for any non-empty name without '#' |
| Route.PlainHashRoute | src/App.tsx:108 | "#name" routes to "name" for any non-empty name without '#' that does not start with '/' |
| Route.EmptyHashIsHome | src/App.tsx:103 | "", "#" and "#/" all route to "home" |
| Route.HomeHashes | src/App.tsx:103 | "#home" and "#/home" route to "home" and show the main site |
| Route.EntourageHash | src/App.tsx:430 | "#/entourage" opens the entourage page |
| Rsvp.Message | src/App.tsx:387-392 | every error message is non-empty, so the alert's `find(Boolean)` skips none |
| Rsvp.MissingCount | src/App.tsx:390-392 | a count is missing exactly when it is not a number of at least 1, a blank field included |
| Rsvp.NumberOrNull | src/App.tsx:407-409 | a blank count is posted as null, any other as its number |
| Rsvp.Fails | src/App.tsx:387-392 | the guest and high-chair checks fail only for a "Yes" answer, and the count check never fails together with the missing high-chair answer |
| Rsvp.Validate | src/App.tsx:386-392 | a key is in the error record exactly when its check fails, and holds that check's message |
| Rsvp.ValidateRequiredFields | src/App.tsx:387-389 | name errors exactly for all-whitespace names; attendance error exactly for no answer |
| Rsvp.ValidateAttendingFields | src/App.tsx:390-392 | guest and high-chair errors exactly on their conditions, all requiring "Yes"; without "Yes" only name and attendance errors can occur |
| Rsvp.FirstError | src/App.tsx:396 | the key returned is in the record, and no key inserted before it is |
| Rsvp.Submit | src/App.tsx:394-411 | posted exactly when no check fails; otherwise the shown errors are the record and the alert is one of its messages; the posted record is the trimmed first and last names, the name `trim(last) + ", " + trim(first)`, the attendance answer, the guest count or null when blank, the high-chair answer, the chair count or null when blank, and the message |
| Rsvp.AlertIsFirstFailedCheck | src/App.tsx:395-397 | the alert is the message of the first failed check in the order the checks run |
| Rsvp.PostedNameSplits | src/App.tsx:401-404 | the posted name reads back as the posted last name, ", ", and the posted first name |
| Rsvp.DeclineWithNamesIsPosted | src/App.tsx:386-394 | a "No" answer with two non-blank names is always posted |
| Rsvp.ChangeAttendance | src/App.tsx:677-686 | the answer is set and its error cleared; any answer but "Yes" blanks guests, high chair and count; "Yes" keeps them; names, message and other errors are unchanged |
| Rsvp.ChangeAttendanceClearsDependentErrors | src/App.tsx:679-684 | after answering anything but "Yes", no guest or high-chair check can fail |
| Rsvp.ChangeToYesKeepsAnswers | src/App.tsx:679-684 | after answering "Yes", the earlier guest and high-chair answers are kept and checked as they stand |
| QrStatus.Mark | src/App.tsx:343-372 | the key gets the new status and every other key keeps its status |
| QrStatus.ExpireIfStill | src/App.tsx:359-366 | the key is removed only if it still holds the timer's status; every other key is untouched |
| QrStatus.ExpireAfterMark | src/App.tsx:358-366 | a status nobody changed is removed by its own timer |
| QrStatus.NewerDownloadSurvivesTimer | src/App.tsx:343-366 | a new download's "saving" survives the previous download's timer |
| QrStatus.TimersOnlyClearTheirOwnStatus | src/App.tsx:373-380 | a success timer never clears an error status, and an error timer never clears a success |
| QrStatus.ExpireIdempotent | src/App.tsx:373-380 | running a timer twice is the same as running it once |
| NavGradient.UpdateGradients | src/App.tsx:76-85 | without a mounted scroller the flags stay; otherwise each shows exactly when the bar can scroll and is not at that end |
| NavGradient.SomeGradientIffScrollable | src/App.tsx:80-84 | some gradient shows exactly when the bar can scroll |
| NavGradient.BothGradientsInMiddle | src/App.tsx:80-84 | both show exactly when the bar can scroll and sits strictly inside its range |
| Entourage.GroupKey | src/App.tsx:797 | the key is the heading itself, or "Other" when the heading is absent or empty |
| Entourage.Step | src/App.tsx:797-800 | the callback adds only the section's key, puts the section last in that key's list, and creates at most one key, after the existing ones |
| Entourage.Group | src/App.tsx:796-801 | the reduce creates at most one key per section, and the last section ends its key's list |
| Entourage.FirstIndexIsFirst | src/App.tsx:796-801 | the reference position is that of the first section with the key |
| Entourage.MembersSnoc | src/App.tsx:798-799 | one more section adds itself to the end of its key's reference list only |
| Entourage.MembersAreThoseWithKey | src/App.tsx:797 | a section is in a key's reference list exactly when its key is that key; the list is non-empty exactly when the key occurs |
| Entourage.GroupHoldsMembers | src/App.tsx:796-801 | the fold creates a list exactly for the keys that occur; each list holds that key's sections in input order; creation order has no repeats |
| Entourage.StepHoldsMembers | src/App.tsx:797-800 | one callback keeps every list equal to its key's sections in input order and the keys distinct |
| Entourage.GroupOrderIsFirstAppearance | src/App.tsx:796-801 | lists are created in order of each key's first section |
| Entourage.StepKeepsFirstAppearance | src/App.tsx:798 | a key created by the callback comes after every key whose first section came earlier |
| Entourage.Select | src/App.tsx:802 | keeps exactly the keys of one kind (array index or not), in order, without repeats |
| Entourage.InsertByValue | src/App.tsx:802 | inserting an array-index key into a list sorted by numeric value keeps it sorted and adds just that key |
| Entourage.SortByValue | src/App.tsx:802 | the array-index keys sorted by numeric value, same keys, no repeats |
| Entourage.EntryOrder | src/App.tsx:802 | `Object.entries` lists every created key once |
| Entourage.EntryOrderShape | src/App.tsx:802 | array-index keys come first, ascending; the other keys follow in creation order |
| Entourage.Entries | src/App.tsx:802 | `Object.entries` lists exactly the keys created on the accumulator, each with its own list, and each once when each was created once |
| Entourage.EntriesKeys | src/App.tsx:802 | each entry pairs a key with its own list, in entry order |
| Entourage.GroupEntries | src/App.tsx:796-802 | the page gets no groups exactly when there are no sections |
| Entourage.GroupEntriesPartition | src/App.tsx:796-802 | group names are distinct; each group is exactly its key's sections in input order and is non-empty; every section's key has a group |
| Entourage.EntriesPartition | src/App.tsx:802 | `Object.entries` of the reference groups lists each group once, with its sections, and none is empty |
| Entourage.GroupEntriesCount | src/App.tsx:796-802 | the groups hold exactly as many sections as the input |
| Entourage.GroupEntriesOrder | src/App.tsx:796-802 | every group name occurs; array-index names first and ascending; all other names in order of first appearance |
| Entourage.EntryOrderKeepsFirstAppearance | src/App.tsx:802 | `Object.entries` keeps non-index keys in their first-appearance order |
| Entourage.SelectKeepsFirstAppearance | src/App.tsx:802 | filtering out array-index keys keeps first-appearance order |
| Entourage.SizesAreMemberCounts | src/App.tsx:796-802 | the total size of the groups is the sum of their reference list lengths |
| Entourage.MemberCountCovers | src/App.tsx:796-802 | distinct keys covering every section count every section once |
| Entourage.StepAsWritten | src/App.tsx:798-799 | the callback over a plain object throws exactly for a new key that is an inherited name; otherwise it is the dictionary step |
| Entourage.GroupAsWritten | src/App.tsx:796-801 | when the reduce as written completes it has built the dictionary fold, and it throws only if some heading is an inherited name |
| Entourage.InheritedHeadingThrows | src/App.tsx:796-801 | any section, anywhere in the list, whose key is an inherited name makes the reduce as written throw; with GroupAsWritten this makes throwing equivalent to some key being an inherited name |
| Entourage.ConstructorHeadingThrows | src/App.tsx:798-799 | the reduce as written throws for a section headed "constructor" |
| Entourage.AsWrittenAgreesWithoutInheritedNames | src/App.tsx:796-801 | when no heading names an inherited object member, the reduce as written builds exactly the corrected fold |
| SketchSpec.Luma | src/App.tsx:242 | the weighted sum `0.299 r + 0.587 g + 0.114 b`; the weights sum to 1, so a gray pixel (r = g = b) keeps its level |
| SketchSpec.GraySeq | src/App.tsx:240-243 | one luma sample per pixel, from that pixel's red, green and blue bytes |
| SketchSpec.LumaInRange | src/App.tsx:242 | luma of three bytes lies in [0, 255] |
| SketchSpec.ToUint8Clamp | src/App.tsx:275-277 | the stored byte is in [0, 255], 0 below and 255 above the range, the nearest integer inside it, ties to even |
| SketchSpec.Shade | src/App.tsx:272-277 | the stored byte is in [0, 255]; no gradient gives white and a saturated one black |
| SketchSpec.Conv | src/App.tsx:263-269 | the Sobel response: the sum of the first n taps of the 3x3 neighbourhood, each weighted by its kernel entry, in the order the ky/kx loops visit them (row above, same row, row below; left to right). It has no ensures of its own; ConvBounds, ConvUniform and the SketchStep lemmas state its properties |
| SketchSpec.PixelShade | src/App.tsx:256-278 | a pixel's gray is in [0, 255], and white for every frame pixel |
| SketchSpec.SketchImage | src/App.tsx:245-281 | the sketch buffer holds four bytes per pixel, like the source image |
| SketchSpec.InteriorTaps | src/App.tsx:256-257 | an interior pixel's neighbourhood lies inside the image |
| SketchSpec.PixelIndex | src/App.tsx:258 | `y * width + x` is a pixel of the image in row y, column x |
| SketchSpec.BorderIsWhite | src/App.tsx:249-257 | all four bytes of every frame pixel are 255 |
| SketchSpec.SmallImageIsWhite | src/App.tsx:256-257 | an image under 3 pixels wide or high comes out entirely white |
| SketchSpec.PixelIsOpaqueGray | src/App.tsx:274-278 | each pixel's red, green and blue are equal and in [0, 255], and alpha is 255 |
| SketchSpec.InteriorAccessesInBounds | src/App.tsx:263-278 | all nine reads and all four writes for an interior pixel are in bounds |
| SketchSpec.KernelsSumToZero | src/App.tsx:246-247 | both Sobel kernels sum to zero |
| SketchSpec.ConvBounds | src/App.tsx:263-269 | over samples in [0, 255] the kernel loops' sum lies between -255 times the negative weights and 255 times the positive weights |
| SketchSpec.Channel | src/App.tsx:249-279 | byte i of the output is a byte value; the alpha byte and every byte of a frame pixel are 255 (PixelIsOpaqueGray shows the colour bytes hold the pixel's shade) |
| SketchSpec.SketchResponsesBounded | src/App.tsx:240-269 | for an RGBA buffer of bytes, the gray buffer built from it gives both Sobel responses in [-1020, 1020] at every interior pixel |
| SketchSpec.SobelResponsesBounded | src/App.tsx:246-269 | over samples in [0, 255] each Sobel response lies in [-1020, 1020] |
| SketchSpec.ConvUniform | src/App.tsx:263-269 | over equal neighbours the response is the value times the kernel's weight |
| SketchSpec.UniformNeighbourhoodIsWhite | src/App.tsx:263-274 | a flat neighbourhood gives gradient 0 and a white pixel |
| SketchSpec.UniformImageIsWhite | src/App.tsx:240-281 | a uniform image comes out entirely opaque white |
| SketchSpec.ToUint8ClampMonotone | src/App.tsx:275-277 | storing a larger value never gives a smaller byte |
| SketchSpec.StrongEdgeIsBlack | src/App.tsx:272-280 | an interior pixel whose scaled gradient magnitude reaches 255 is drawn black |
| SketchSpec.NoGradientIsWhite | src/App.tsx:272-280 | an interior pixel with both Sobel responses zero is drawn white |
| SketchStep.LeftOfStepIsBlack | src/App.tsx:256-281 | in a black-to-white step image the pixel left of the step has horizontal response 1020, vertical 0, and, given a square root exact at 1020², is drawn black in all three colour channels |
| SketchStep.RightOfStepIsBlack | src/App.tsx:256-281 | likewise the pixel right of the step is drawn black |
| SketchStep.AwayFromStepIsWhite | src/App.tsx:256-281 | the interior pixel away from the step has no gradient and, given a square root with `sqrt(0) == 0`, is drawn white |
| SketchSpec.StrongerEdgeIsDarker | src/App.tsx:272-275 | with a non-decreasing square root, a larger gradient never gives a lighter pixel |
| SketchSpec.BlackFourByFourIsWhite | src/App.tsx:236-281 | a 4x4 all-black image gives 16 opaque white pixels |
| SketchFilter.Grayscale | src/App.tsx:238-243 | the buffer filled is the luma of each pixel |
| SketchFilter.FillWhite | src/App.tsx:249-254 | every byte of the output becomes 255 |
| SketchFilter.Gradients | src/App.tsx:259-270 | the kernel loops compute both Sobel responses at the pixel |
| SketchFilter.TapIsOffset | src/App.tsx:265 | read `idx + ky * width + kx` is tap `3 * (ky + 1) + (kx + 1)`, within one row and column of `idx` |
| SketchFilter.StoredShade | src/App.tsx:272-277 | the value the loop body stores is the pixel's shade |
| SketchFilter.SobelPass | src/App.tsx:256-281 | starting from all white, the pixel loops leave exactly the sketch |
| SketchFilter.GenerateSketch | src/App.tsx:221-287 | load failure gives SourceUnavailable; a missing context gives CanvasUnavailable; otherwise a new buffer holding the sketch of the loaded pixels |

## Left out

- Image decoding and the canvas are parameters of `SketchFilter.GenerateSketch`. This covers `new Image`, `onload`/`onerror`, `drawImage`, `getImageData` and `putImageData`: the loaded bitmap, or its absence, and whether a 2D context exists. The CORS setting is not modelled.
- SketchFilter.GenerateSketch: returns the RGBA buffer; the PNG encoding by `toDataURL` is not modelled.
- SketchSpec.GraySeq: luma is exact real arithmetic; the rounding to single precision done by the `Float32Array` is not modelled.
- SketchSpec.Shade: `Math.sqrt` is the parameter `sqrt`. The sums and products are exact reals rather than IEEE doubles, and NaN is not modelled.
- SketchFilter.GenerateSketch: exceptions thrown inside `img.onload` leave the promise pending. That happens when `getImageData` or `createImageData` throws for a zero-width or zero-height image, or for a canvas tainted by a cross-origin image. The model has no pending outcome: it returns `Success` with an empty buffer for an image of zero size and does not model tainting.
- The cancel flag and the state updates that install a finished sketch are not modelled, because they are effect plumbing around the promise.
- The RSVP POST to the remote script is not modelled: the `URLSearchParams` encoding, `fetch`, the loading flag and the success and failure alerts are network I/O. `Rsvp.Submit` stops at the payload.
- Rsvp.Submit: numeric inputs are a blank or a real number. The model has no NaN from `Number()`.
- Rsvp.Submit: a count is posted as the number itself, not as the string the form encoding makes of it.
- An error set to `undefined` is modelled as an absent key. Nothing reads the record except through truthiness.
- The other field handlers that clear their own error are not modelled. These are the names, guests, high chair, count and message handlers; the "No" high-chair handler also blanks the count.
- The QR download itself is not modelled: `fetch`, the blob, object URLs, the anchor click, `window.open` and the alert are browser side effects. The 4 and 5 second delays are not modelled either. Only the status updaters are.
- `syncNavToPageScroll`, scroll and resize listeners, the IntersectionObserver, the welcome overlay timers and localStorage load/save are not modelled. They are I/O or floating-point scroll progress.
- Strings are sequences of Unicode characters. JavaScript's UTF-16 code units are not modelled, which only matters for characters outside the Basic Multilingual Plane.
- JSX rendering, the static data tables and `tailwind.config.js` are not part of this model.

## Findings

| source | as written | input that shows it | evidently intended | confidence | as-written member | corrected member |
|---|---|---|---|---|---|---|
| src/App.tsx:796-801 | the reduce starts from a plain `{}`, so `!acc[group]` also sees members inherited from `Object.prototype`; no list is created and `acc[group].push` is not a function | one section with `groupHeading: "constructor"` (likewise "toString", "valueOf", "__proto__", …) throws a TypeError | every heading gets its own group, as for any other name (an accumulator without a prototype, or an own-property test) | latent: the shipped section data uses no such heading; not executed | Entourage.GroupAsWritten, Entourage.InheritedHeadingThrows, Entourage.ConstructorHeadingThrows | Entourage.Group, Entourage.GroupEntriesPartition |
