# Vehicle-inspection QR reassembly, modelled in Dafny

A Japanese vehicle-inspection certificate carries its data in several QR codes.
A light vehicle ("kei" car) has two codes and every other vehicle has five.
The five standard codes form two structured-append groups: a 3-part group and a 2-part group.
The app's analyzer hook takes decoded reads one at a time and works out three things:
- which variant the read belongs to;
- which slot the read fills;
- once every slot is filled, the vehicle record (car type, car number, serial number and prime-mover type).

A standalone classifier adds content guards for the fourth and fifth standard codes.

This project models that logic as pure functions and proves properties about it:

| file | module | contents |
|---|---|---|
| `wrappers.dfy` | `Wrappers` | `Option` |
| `fields.dfy` | `Fields` | JavaScript's `split("/")` (`Split`, with `Join` as its inverse), the `split("/")[i] \|\| ""` idiom (`Field`), and `replace(/\s+/g, "")` (`StripWhitespace`) over the exact set of characters JavaScript's `\s` matches |
| `classify.dfy` | `Classify` | the read record, variant detection, and the two slot classifiers of the hook |
| `analyzer.dfy` | `Analyzer` | the guarded standard classifier and its fourth-code and fifth-code checks |
| `assembly.dfy` | `Assembly` | the hook's state, `addReadResult`, the completion effect, and `clear` |
| `scans.dfy` | `Scans` | whole scans of both variants, the record stated against the codes' fields, and worked examples |

The hook's React state updates and its completion effect become one atomic step, `Assembly.Ingest`:
- an invalid read returns the state unchanged;
- any other read is placed with `AddReadResult`, and then the completion effect `Settle` runs.

`Settle` is idempotent, and every state reachable from the initial one is settled (`ReachableFromInitial`).
So the effect has nothing left to do between reads.
The model assumes the effect runs between any two reads; see "## Left out".

## Behaviour of the hook worth knowing

- **Initial variant.** The hook starts in the standard variant with five empty slots (`src/lib/hooks/useAnalyzer.ts:12-19`).
- **Reads after completion.** A completed scan is not terminal, and `isCompleted` stays true until `clear` (`CompletedIsSticky`).
  - A read of the other variant replaces the slots. The old record stays in place (`IngestAfterCompletion`).
  - An accepted read of the same variant refills its slot. The effect then runs again and recomputes the record from the new texts (`IngestRecomputesRecord`).
- **Order of switching and classifying.** The variant flag is switched, and the slots reset, before the read is classified. A valid read of the other variant whose slot is rejected therefore still empties the slots (`IngestVariantSwitch`).
- **Which classifier the hook uses.** The hook places standard reads by sequence metadata alone (`detectIndexForNormalVehicle`). The hook never calls the content-guarded classifier of `src/lib/analyzer.ts`. It is modelled separately, and `GuardedRefinesNormal` relates the two.

## Model

| member | source | states |
|---|---|---|
| Fields.Split | src/lib/hooks/useAnalyzer.ts:66 | `split("/")` always yields at least one field. Its inverse partner `Join` is tied to it in both directions by SplitJoin and JoinSplit |
| Fields.Field | src/lib/hooks/useAnalyzer.ts:122 | `split("/")[i] \|\| ""` never contains a slash. Its value on joined fields is stated by FieldOfJoin |
| Fields.StripWhitespace | src/lib/hooks/useAnalyzer.ts:123 | `replace(/\s+/g, "")` never lengthens the text. What it keeps and removes is stated by StripKeeps, StripAppend and StripFixpoint |
| Fields.IsWhitespace | src/lib/hooks/useAnalyzer.ts:123 | the characters `\s` matches: tab, line feed, vertical tab, form feed, carriage return, space, U+00A0, U+1680, U+2000-U+200A, U+2028, U+2029, U+202F, U+205F, U+3000 and U+FEFF. This is a predicate and carries no contract |
| Fields.SplitFields | src/lib/hooks/useAnalyzer.ts:66 | `split("/")` yields one more field than the text has slashes, and no field contains a slash |
| Fields.SplitJoin | src/lib/hooks/useAnalyzer.ts:66 | gluing the split fields back together with slashes gives the original text |
| Fields.JoinSplit | src/lib/hooks/useAnalyzer.ts:74 | splitting a text built from slash-free fields gives back exactly those fields |
| Fields.FieldOfJoin | src/lib/hooks/useAnalyzer.ts:122 | `split("/")[i] \|\| ""` on a text built from fields is field i, or "" when there are too few fields |
| Fields.FirstFieldIs | src/lib/hooks/useAnalyzer.ts:66-69 | the first field is a given slash-free string exactly when the text is that string or starts with it followed by a slash |
| Fields.FieldExamples | src/lib/hooks/useAnalyzer.ts:122 | field lookups on the empty text, in the middle of a text, and past its end |
| Fields.StripLeavesNoWhitespace | src/lib/hooks/useAnalyzer.ts:123 | no `\s` character survives the removal |
| Fields.StripKeeps | src/lib/hooks/useAnalyzer.ts:123 | a character is in the stripped text exactly when it is in the input and is not whitespace |
| Fields.StripAppend | src/lib/hooks/useAnalyzer.ts:123 | whitespace removal distributes over concatenation |
| Fields.StripFixpoint | src/lib/hooks/useAnalyzer.ts:123 | removal leaves a text unchanged exactly when the text has no whitespace |
| Fields.StripIdempotent | src/lib/hooks/useAnalyzer.ts:123 | removing whitespace twice is the same as removing it once |
| Fields.StripInnerBlank | src/lib/hooks/useAnalyzer.ts:123 | an inner blank between whitespace-free parts is removed and the parts are kept |
| Classify.IsLightVehicleResult | src/lib/hooks/useAnalyzer.ts:65-70 | a read is a light-vehicle read exactly when its text is "K" or begins with "K/" |
| Classify.LightOfJoin | src/lib/hooks/useAnalyzer.ts:65-70 | on a text built from fields, a read is light exactly when the first field is "K" |
| Classify.DetectIndexForLightVehicle | src/lib/hooks/useAnalyzer.ts:73-90 | the light slot is -1, 0 or 1, and a slot is given only when the second field exists and has length 2 |
| Classify.LightIndexOfJoin | src/lib/hooks/useAnalyzer.ts:73-90 | the light slot is 0 when the two-character second field starts with '2', 1 when it starts with '3', and -1 otherwise (including when that field is missing or has a different length) |
| Classify.LightIndexNeedsSlash | src/lib/hooks/useAnalyzer.ts:77-79 | a text without a slash has no second field, so it is rejected |
| Classify.DetectIndexForNormalVehicle | src/lib/hooks/useAnalyzer.ts:92-109 | the standard slot is between -1 and 4 |
| Classify.NormalSlotPosition | src/lib/hooks/useAnalyzer.ts:95-104 | slot k is position (3, k) for k < 3 and position (2, k-3) otherwise, and each index is below its size |
| Classify.NormalIndexInverse | src/lib/hooks/useAnalyzer.ts:92-109 | a read lands in slot k exactly when its (size, index) metadata is slot k's position, and it is rejected exactly when its metadata is no slot's position |
| Classify.NormalIndexIgnoresText | src/lib/hooks/useAnalyzer.ts:92-93 | the standard slot depends on the sequence metadata only |
| Classify.LightClassifiersIgnoreMetadata | src/lib/hooks/useAnalyzer.ts:65-90 | variant detection and the light slot depend on the text only |
| Analyzer.IsFullWidthDigit | src/lib/analyzer.ts:9 | the character class `[\uFF10-\uFF19]` of the full-width digit check. This is a predicate and carries no contract |
| Analyzer.Is4thQr | src/lib/analyzer.ts:3-5 | the fourth-code check holds exactly when the text is "2/" followed by text with no slash |
| Analyzer.Is4thQrOfJoin | src/lib/analyzer.ts:3-5 | on a text built from fields, the check holds exactly when there are two fields and the first is "2" |
| Analyzer.Is5thQr | src/lib/analyzer.ts:7-11 | the fifth-code check holds exactly when the text is a full-width digit, then a slash, with four slashes in all |
| Analyzer.Is5thQrOfJoin | src/lib/analyzer.ts:7-11 | on a text built from fields, the check holds exactly when there are five fields and the first is a single full-width digit |
| Analyzer.DetectQrCodeIndex | src/lib/analyzer.ts:13-40 | the guarded classifier returns -1 to 4 and rejects invalid reads. Slots 0-2 are exactly the valid 3-part positions. Slot 3 is exactly the valid 2-part index 0 that passes the fourth-code check. Slot 4 is exactly the valid 2-part index 1 that passes the fifth-code check |
| Analyzer.GuardedRefinesNormal | src/lib/analyzer.ts:18-40 | every slot the guarded classifier gives is the hook's slot; it rejects everything the hook rejects; its extra rejections are exactly the 2-part reads that fail their content check |
| Assembly.CountFilledBound | src/lib/hooks/useAnalyzer.ts:114 | the non-null count is at most the number of slots, and equals it exactly when every slot is filled |
| Assembly.Initial | src/lib/hooks/useAnalyzer.ts:12-19 | the starting state has five empty slots, the standard variant, no record, and is not completed |
| Assembly.Clear | src/lib/hooks/useAnalyzer.ts:147-152 | from any state, clear returns the starting state, which has no filled slot |
| Assembly.SlotIndex | src/lib/hooks/useAnalyzer.ts:41-46 | the slot chosen for the current variant is -1 or a valid index into that variant's slots |
| Assembly.AddReadResult | src/lib/hooks/useAnalyzer.ts:21-62 | placing a read keeps one slot per code of the (possibly new) variant, and leaves the record and the completed flag alone |
| Assembly.Settle | src/lib/hooks/useAnalyzer.ts:111-145 | the effect never touches slots or flag. When every slot is filled, it stores the variant's record and completes the scan. Otherwise it changes nothing |
| Assembly.SettleIdempotent | src/lib/hooks/useAnalyzer.ts:111-145 | running the completion effect a second time changes nothing |
| Assembly.Ingest | src/lib/hooks/useAnalyzer.ts:21-62 | an invalid read changes nothing. A valid read sets the variant to its own. The scan is completed afterwards exactly when it was completed before or every slot is filled. Completion is never undone |
| Assembly.IngestVariantSwitch | src/lib/hooks/useAnalyzer.ts:28-51 | on a variant switch the slots are reset to the new variant's size. They hold only the new read, and only if it is accepted. The flag switches even when the read is rejected |
| Assembly.IngestSameVariant | src/lib/hooks/useAnalyzer.ts:41-54 | without a switch, an accepted read overwrites its own slot and no other, and a rejected read changes no slot |
| Assembly.IngestIdempotent | src/lib/hooks/useAnalyzer.ts:41-54 | ingesting the same read twice in a row gives the same state as ingesting it once |
| Assembly.IngestRejectedIsNoOp | src/lib/hooks/useAnalyzer.ts:48-51 | in a settled state, a valid read that its own variant rejects leaves the state unchanged |
| Assembly.IngestAfterCompletion | src/lib/hooks/useAnalyzer.ts:28-39 | a completed scan still accepts a read of the other variant. The slots are replaced (at most one filled), while the completed flag and the old record stay |
| Assembly.IngestKeepsSettled | src/lib/hooks/useAnalyzer.ts:111-145 | each step leaves the completion effect nothing more to do |
| Assembly.ReachableSettled | src/lib/hooks/useAnalyzer.ts:111-145 | from a settled state, any sequence of reads keeps the invariant and the settledness |
| Assembly.ReachableFromInitial | src/lib/hooks/useAnalyzer.ts:12-19 | every state reachable from the starting state keeps the invariant and is settled |
| Assembly.IngestRecomputesRecord | src/lib/hooks/useAnalyzer.ts:53-54 | with every slot filled, an accepted read of the same variant leaves the scan completed, and the record is recomputed from the new slots |
| Assembly.CompletedIsSticky | src/lib/hooks/useAnalyzer.ts:128-143 | once completed, a scan stays completed whatever is read afterwards |
| Assembly.StandardDetails | src/lib/hooks/useAnalyzer.ts:116-126 | the standard record's car type has no slash, and its other three values have no whitespace. The field offsets are stated by StandardDetailsOfFields |
| Assembly.CompactDetails | src/lib/hooks/useAnalyzer.ts:133-141 | the light record's car type has no slash, and its other three values have no whitespace. The field offsets are stated by CompactDetailsOfFields |
| Scans.StandardDetailsOfFields | src/lib/hooks/useAnalyzer.ts:116-126 | the standard record's car type is field 5 of the 3-part group, and its other three values are fields 1, 3 and 4 of the 2-part group without whitespace; a missing field gives "" |
| Scans.CompactDetailsOfFields | src/lib/hooks/useAnalyzer.ts:133-141 | the light record's car type is field 6 of the second code, and its other three values are fields 2, 4 and 5 of the first code without whitespace; a missing field gives "" |
| Scans.StandardRecordRoundTrip | src/lib/hooks/useAnalyzer.ts:116-126 | a 3-part and a 2-part group whose fields carry a record's values (slash-free, and whitespace-free where stripped) yield exactly that record |
| Scans.CompactRecordRoundTrip | src/lib/hooks/useAnalyzer.ts:133-141 | codes whose fields carry a record's values (slash-free, and whitespace-free where stripped) yield exactly that record |
| Scans.CompactScan | src/lib/hooks/useAnalyzer.ts:28-143 | from any state of either variant, the light codes numbered '2' then '3' complete a light scan holding exactly those reads and their record |
| Scans.CompactScanReversed | src/lib/hooks/useAnalyzer.ts:41-54 | from any state, the light codes read '3' first and then '2' also complete a light scan holding exactly those reads and their record |
| Scans.CompactScanEitherOrder | src/lib/hooks/useAnalyzer.ts:41-54 | the two light codes may be read in either order |
| Scans.StandardStep | src/lib/hooks/useAnalyzer.ts:28-54 | a valid standard read at slot k's position fills slot k. It keeps the other slots in a standard state, and starts from five empty slots in a light state |
| Scans.StandardScan | src/lib/hooks/useAnalyzer.ts:111-128 | from any state of either variant, the five standard reads complete the scan with those reads and the standard record |
| Scans.CompactExample | src/lib/hooks/useAnalyzer.ts:133-141 | "K/21/N 2/x/S/P" and "K/31/a/b/c/d/T" yield the record (T, N2, S, P) |
| Scans.CompactExampleCodes | src/lib/hooks/useAnalyzer.ts:65-90 | the two example light codes are light reads numbered for slots 0 and 1 |
| Scans.StandardExample | src/lib/hooks/useAnalyzer.ts:116-126 | fields that run across code boundaries, "a/b/c/d/e/T" and "2/N 1/x/S 9/P", yield the record (T, N1, S9, P) |

## Left out

- The camera, the barcode decoding and the user interface (`src/components/QrReader.tsx`) are not part of this model. A read is given as its decoded text, its sequence metadata and its validity flag.
- Console logging is left out. It has no effect on the state.
- React's scheduling is not modelled. The functional state updates and the effect that reruns on `[readResults, isLightVehicle]` become one atomic step per read. This assumes the effect runs between any two reads. React may batch several reads made in the same task into one render, and then the effect sees only the final state. For example, a fifth standard code followed in the same batch by a light code never completes the scan in the app, whereas `Ingest` completes it after the fifth code. Such batched sequences are not modelled.
- Mutation of the previous slot array is not modelled. `addReadResult` assigns into `prevResults` and then copies it. The model builds the new array directly, which gives the same contents.
- Null slots concatenated as "undefined" are not modelled. The extraction reads optional slot texts, which would concatenate as "undefined" for a null slot. It only runs when every slot is filled, so that case cannot arise, and the model requires filled slots instead.
- Classify.DetectIndexForLightVehicle: measures the length of the second field in characters, not JavaScript's UTF-16 code units. The two differ only for characters outside the Basic Multilingual Plane.
- Sequence metadata is an unbounded integer, with -1 meaning "no structured-append metadata", which is the decoder's convention. The decoder is not part of this model.
- Assembly.Ingest: requires `Valid` of the state it is given: two slots for a light vehicle, five otherwise. The hook's own state always satisfies this, as `Initial`, `Clear`, `Ingest` and `ReachableFromInitial` show.
