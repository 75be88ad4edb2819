# SafetySign: attendance report and signature pad, modelled in Dafny

SafetySign is a mobile form for safety-meeting attendance. Operators enter the meeting details and fill a roster of attendee slots, and each attendee is marked present or absent. The repository holds two reusable pieces for this: a report generator that turns the roster into a PDF document, and a touch signature pad. This project models those two files as they are written:

- **The report data** (`utils/pdfGenerator.ts`, module `PdfReport`). This covers which roster slots get listed, how they split into present and absent, the Signed / Present (Unsigned) / Absent / Expected figures, the number, name, status and date cells of each table row, and the fallback texts for empty meeting details. It is written as pure functions over `seq<Attendee>`. Two helper modules support it: `Seqs` models JavaScript's `filter`, and `JsText` models `trim`, truthiness and `||`. `JsText.Truthy` (an optional string that is defined and not empty) is the JavaScript truthiness definition the contracts of `OrOption`, `StatusText`, `StatusClassOf` and `SummaryFigures` are stated against.
- **The signature pad** (`components/SignatureCanvas.tsx`, modules `StrokePath` and `SignatureCanvas`). This covers the committed strokes, the stroke in progress, and the ref the gesture handlers read it through. It is written as the class `Canvas`, with one method per handler (gesture start, move, release, clear, save). A ghost field `stroke` records the touch points of the stroke in progress. `StrokePath` builds the SVG path text the handlers build. `StrokePath.ParseStroke` reads that text back into points, and the round-trip lemma shows that each stroke's text fixes its points.

The main screen (`app/(tabs)/index.tsx`) does not call either file. It builds its own report inline with a similar filter and map, and its signature dialog is a placeholder that stores a fixed text. That screen is not part of this model, so nothing here is claimed about what the app as shipped does.

Coordinates are integers in hundredths of a pixel, which is the value `toFixed(2)` prints. `StrokePath.FixedText` writes such a value the way `toFixed(2)` does.

`Canvas.Save` hands over only the committed `paths`; a stroke still in progress is not saved (components/SignatureCanvas.tsx:70).

## Model

| member | source | states |
|---|---|---|
| `Seqs.Filter` | utils/pdfGenerator.ts:25-28 | `Array.filter`: the result is no longer than the input, and every element it keeps satisfies the predicate |
| `Seqs.FilterMembers` | utils/pdfGenerator.ts:25-27 | an element is in the filtered list iff it is in the input and satisfies the predicate |
| `Seqs.FilterAppend` | utils/pdfGenerator.ts:25-27 | filtering a concatenation gives the filtered parts concatenated, so input order is kept |
| `Seqs.FilterSingleton` | utils/pdfGenerator.ts:25-27 | a single element is kept exactly when it satisfies the predicate |
| `Seqs.FilterFilter` | utils/pdfGenerator.ts:26-27 | filtering by q after p is the same as filtering once by "p and q" |
| `Seqs.FilterPartition` | utils/pdfGenerator.ts:26-27 | filtering by a predicate and by its negation splits the input: the lengths sum to the input length and the multisets add up to the input's multiset |
| `JsText.Trim` | utils/pdfGenerator.ts:25 | `trim` never lengthens a string, and a non-empty result neither starts nor ends with white space; `JsText.TrimEmptyIffBlank` states when it is empty |
| `JsText.Or` | utils/pdfGenerator.ts:304-312 | `s or fallback` is one of its two operands, is `s` whenever `s` is non-empty, and is never empty when the fallback is not |
| `JsText.TrimStartDropsBlankPrefix` | utils/pdfGenerator.ts:25 | the leading part `trim` removes is all white space, the rest is a suffix of the input, and that rest starts with a non-space |
| `JsText.TrimEndDropsBlankSuffix` | utils/pdfGenerator.ts:25 | the trailing part `trim` removes is all white space, the rest is a prefix of the input, and that rest ends with a non-space |
| `JsText.TrimEmptyIffBlank` | utils/pdfGenerator.ts:25 | `name.trim()` is falsy iff every character of the name is ECMAScript white space or a line terminator |
| `JsText.OrOption` | utils/pdfGenerator.ts:48 | JavaScript's `reason or fallback` gives the reason when it is defined and non-empty, and the fallback otherwise |
| `PdfReport.FilledAttendees` | utils/pdfGenerator.ts:25 | the filled list is no longer than the roster and every attendee in it has a name whose `trim` is non-empty |
| `PdfReport.PresentAttendees` | utils/pdfGenerator.ts:26 | the present list is no longer than the filled list and holds only attendees marked present |
| `PdfReport.AbsentAttendees` | utils/pdfGenerator.ts:27 | the absent list is no longer than the filled list and holds only attendees marked absent |
| `PdfReport.FilledSingleton` | utils/pdfGenerator.ts:25 | a single roster slot is listed iff its name is not blank |
| `PdfReport.FilledAppend` | utils/pdfGenerator.ts:25 | listing a roster made of two parts lists the first part then the second, so roster order is kept |
| `PdfReport.FilledMembers` | utils/pdfGenerator.ts:25 | an attendee is in the filled list iff it is in the roster and its name is not blank |
| `PdfReport.PresentAbsentPartition` | utils/pdfGenerator.ts:26-27 | present and absent lists are disjoint; their lengths sum to the filled count and their multisets to the filled list's; each equals the roster filtered by "filled and present" (or "filled and absent"), so each keeps roster order |
| `PdfReport.SignedCount` | utils/pdfGenerator.ts:28 | the number of signed present attendees never exceeds the number of present attendees |
| `PdfReport.SummaryOf` | utils/pdfGenerator.ts:316-333 | Expected is `expectedCount` unchanged; all other figures are non-negative; Signed + Present (Unsigned) + Absent equals the number of filled attendees |
| `PdfReport.SummaryFigures` | utils/pdfGenerator.ts:316-333 | Signed counts the present attendees with a truthy signature and is at most the present count; Present (Unsigned) is present minus signed and is never negative; Absent is the absent list's length; Expected does not depend on the roster |
| `PdfReport.StatusText` | utils/pdfGenerator.ts:36-48 | the status text starts with "Absent: " iff the attendee is absent, and a present attendee's status is "✓ Signed" or "⚠ Not Signed" |
| `PdfReport.StatusClassOf` | utils/pdfGenerator.ts:36-47 | the cell class is the absent one iff the attendee is absent, and the signed one iff the attendee is present with a truthy signature |
| `PdfReport.BuildRow` | utils/pdfGenerator.ts:30-52 | row `index` is numbered `index + 1` and shows the attendee's name and date; the absent-row flag, the absent cell class and the "Absent: " status go together, exactly for absent attendees |
| `PdfReport.RenderReport` | utils/pdfGenerator.ts:304-333 | the report's rows are the rows built from the filled list and its figures are the summary of the roster, so the row and summary lemmas apply to it; the table has exactly as many rows as Signed, Present (Unsigned) and Absent add up to; Expected is `expectedCount`; the location, facilitator and topic shown are never empty |
| `PdfReport.AttendeeRows` | utils/pdfGenerator.ts:30-54 | one row per filled attendee |
| `PdfReport.RowsFollowFilledList` | utils/pdfGenerator.ts:30-54 | row k is the row built for the k-th filled attendee at index k: numbered k+1, with its name, date, status and cell class, whatever its presence flag, so present and absent rows stay interleaved; no row carries a blank name |
| `PdfReport.PresentRowStatus` | utils/pdfGenerator.ts:31-41 | in a present row, the status is "✓ Signed" iff the signature is truthy and "⚠ Not Signed" iff it is not; the cell class matches; the row never starts with "Absent:" and is not flagged absent |
| `PdfReport.AbsentRowStatus` | utils/pdfGenerator.ts:42-53 | in an absent row, the status is "Absent: " followed by the reason, or "Absent: Not specified" when the reason is missing or empty; the row is flagged absent and never shows a signed or unsigned status |
| `PdfReport.MetadataFallbacks` | utils/pdfGenerator.ts:292-313 | an empty location or facilitator shows "Not specified" and an empty topic shows "General Safety Training"; non-empty values show unchanged; the shown values are never empty; the formatted dates pass through unchanged |
| `PdfReport.ExampleMeeting` | utils/pdfGenerator.ts:25-54 | for the roster signed, absent "Sick", blank, unsigned: figures are expected/1/1/1, there are three rows in roster order with the absent row second, and the statuses are as listed |
| `StrokePath.FixedText` | components/SignatureCanvas.tsx:38 | a coordinate text ends in a point and two digits, and starts with '-' iff the coordinate is negative; `StrokePath.ParseFixedText` shows it determines the coordinate |
| `StrokePath.PointText` | components/SignatureCanvas.tsx:38 | in `x,y` the comma comes right after the text of `x`, and at least four characters follow it; `StrokePath.PointTextShape` shows there is no space and no other comma, and `StrokePath.ParsePointText` that the text determines the point |
| `StrokePath.MoveTo` | components/SignatureCanvas.tsx:38 | a moveto is non-empty and starts with 'M' |
| `StrokePath.LineTo` | components/SignatureCanvas.tsx:45 | a lineto starts with a space and an 'L'; `StrokePath.LastSpaceBeforeLineTo` shows that space is the last one in the extended path |
| `StrokePath.StrokeText` | components/SignatureCanvas.tsx:36-48 | the path text of a stroke is never empty and starts with the moveto's 'M'; `StrokePath.ParseStrokeText` shows it determines the stroke |
| `StrokePath.NatText` | components/SignatureCanvas.tsx:38 | the integer part `toFixed` writes is at least one decimal digit, with no leading zero |
| `StrokePath.FixedTextShape` | components/SignatureCanvas.tsx:38 | a coordinate text ends in a point and two digits, and contains only digits, '-' and '.' |
| `StrokePath.PointTextShape` | components/SignatureCanvas.tsx:38 | `x,y` has no space, and its only comma separates the two coordinate texts |
| `StrokePath.FixedTextWholePixels` | components/SignatureCanvas.tsx:38 | a whole number of pixels n is written as n's digits followed by ".00" |
| `StrokePath.ParseFixedText` | components/SignatureCanvas.tsx:38 | every coordinate text reads back as the coordinate it was written from |
| `StrokePath.ParsePointText` | components/SignatureCanvas.tsx:38 | every `x,y` text reads back as its point |
| `StrokePath.ParseMoveTo` | components/SignatureCanvas.tsx:38 | the moveto a gesture start writes reads back as a one-point stroke |
| `StrokePath.ParseAfterLineTo` | components/SignatureCanvas.tsx:45 | appending a lineto to a stroke text appends its point to the points read back |
| `StrokePath.ExtendPath` | components/SignatureCanvas.tsx:45 | appending a lineto strictly extends a path; when the path is a stroke's text, the result is the text of that stroke extended by the point, and reads back as it |
| `StrokePath.ParseStrokeText` | components/SignatureCanvas.tsx:36-48 | the path text of any stroke reads back as exactly its points, so each path text determines its stroke |
| `StrokePath.ExampleStrokeText` | components/SignatureCanvas.tsx:36-48 | a touch at (10,10) and moves to (20,20) and (30,10) give "M10.00,10.00 L20.00,20.00 L30.00,10.00" |
| `SignatureCanvas.Canvas.Valid` | components/SignatureCanvas.tsx:36-54 | the pad's invariant, kept by every handler: the ref holds the same text as the current path, and the path of a tracked stroke is its stroke text, which is non-empty and starts with 'M' |
| `SignatureCanvas.Canvas.HasSignature` | components/SignatureCanvas.tsx:74 | the pad has a signature iff it holds a committed path or a non-empty path in progress; a pad drawing a tracked stroke always has one |
| `SignatureCanvas.Canvas.constructor` | components/SignatureCanvas.tsx:17-27 | a new pad has no committed paths, and its current path and ref are both empty; `initialSignature` is ignored |
| `SignatureCanvas.Canvas.Grant` | components/SignatureCanvas.tsx:36-41 | gesture start replaces any stroke in progress with the moveto `"M" + x,y`; committed paths are unchanged; the ref equals the current path |
| `SignatureCanvas.Canvas.Move` | components/SignatureCanvas.tsx:43-48 | gesture move sets the current path and the ref to the old ref plus `" L" + x,y`; the old path is a strict prefix of the new one; committed paths are unchanged; a tracked stroke gains the point and its text reads back as its points |
| `SignatureCanvas.Canvas.Release` | components/SignatureCanvas.tsx:50-54 | release appends the ref's path to the committed paths, leaving earlier entries unchanged, then empties the current path and the ref; for a tracked stroke (one that began with a gesture start), the committed text reads back as the stroke's points |
| `SignatureCanvas.Canvas.Clear` | components/SignatureCanvas.tsx:57-61 | from any state, clear leaves no committed paths and an empty current path and ref; the new state does not depend on the old one, so clearing twice is the same as clearing once |
| `SignatureCanvas.Canvas.Save` | components/SignatureCanvas.tsx:63-74 | save is refused (no signature) iff `hasSignature` is false, that is, no committed paths and an empty current path; otherwise it returns exactly the committed paths, without the stroke in progress, plus the given timestamp; the pad is not modified |
| `SignatureCanvas.SignOnceThenClear` | components/SignatureCanvas.tsx:36-72 | touch at (10,10), move to (20,20) and (30,10), release, then save: one path with a moveto and two linetos; after clearing twice, save is refused |

## Left out

- `Print.printToFileAsync` and the `try`/`catch` that returns `null` (utils/pdfGenerator.ts:362-373): a foreign, asynchronous platform call. `PdfReport.RenderReport` stops at the values the document is built from.
- The CSS, static HTML, header and footer text (utils/pdfGenerator.ts:56-360, apart from the interpolated values): fixed text with no logic. The rows are a sequence; the source joins their HTML with `''`. The row's HTML markup and the whitespace around the status text are not modelled.
- Date handling (utils/pdfGenerator.ts:282-300): clock- and locale-dependent. The "generated on" text and the formatted meeting date are string inputs to `RenderReport`.
- `expectedCount` is a JavaScript number printed by template interpolation. The model keeps it as an integer value and does not model number-to-text conversion.
- HTML escaping: the source performs none, and none is modelled.
- Floating-point coordinates: a touch location is taken as the hundredths that `toFixed(2)` rounds it to, and the rounding itself is not modelled. A negative value that rounds to zero prints "-0.00" in JavaScript but "0.00" here. Values of 1e21 and above, which `toFixed` prints in exponent form, are not modelled.
- Canvas sizing arithmetic (components/SignatureCanvas.tsx:21-30): floating point and layout only.
- `Date.now()` and `JSON.stringify` (components/SignatureCanvas.tsx:70): the blob is the datatype `SignatureData(paths, timestamp)`, with the timestamp passed in. `Save` returns that value instead of calling `onSave`, and returns `Failure(NoSignature)` where the source shows its alert.
- React rendering, `PanResponder` wiring, `Alert`, `Dimensions`, the SVG drawing and the Cancel button (components/SignatureCanvas.tsx:32-35, 76-293): UI plumbing.
- React state updates are taken to apply at once. At release (components/SignatureCanvas.tsx:51-53) the source passes `setPaths` an updater that reads `pathRef.current`, and then empties the ref. React may run that updater at once, inside `setPaths`, or later, during the next render, when the ref is already empty and `""` would be committed. The model assumes the first case: `Canvas.Release` commits the ref's text as it was before line 53.
- Roster generation, presence toggling and the completeness statistics in app/(tabs)/index.tsx: that screen is not part of this model.
- SignatureCanvas.Canvas.Move: the method keeps the ghost point list `stroke` only for a stroke that began with a gesture start. A move with no gesture start before it (which `PanResponder` does not produce) still updates the path text exactly as the source does, but leaves `stroke` empty.
