# corkboard-crm core, modelled in Dafny

corkboard-crm is a small CRM for a brokerage's sales team. A salesperson opens
a client's "corkboard": a template of questions (fields) laid out on a
10-column grid. They answer the questions and attach notes to fields. They can
hide fields, add or edit questions, and save. Saving stores the answers with a
list of recommendations and their total score. A route gate keeps signed-out
visitors away from the client pages.

This project models the client-side logic of that system and proves what it
promises:

- `Layout` (lib/layout.ts): the grid constants and `normalizeLayout`. It sorts
  items in reading order, then packs each one at the first free spot, scanning
  rows left to right. The occupancy grid is a set of cells. `CanPlace`,
  `Occupy` and the placement loop are methods proved against a first-fit
  predicate, and the packing is proved overlap-free and unique.
- `Answers` (lib/answers.ts): `mergeAnswers`, which keeps one answer per
  template field. The current answer wins over the saved one.
- `Recommendations` (lib/recommendations.js and its test): the five rules,
  the onboarding fallback, and the descending sort by score. It also models
  the test's reference implementation, which looks fields up through the
  template.
- `Confidence` (lib/confidence.ts): the colour, face and chip bands of a
  score.
- `QuestionModal` (components/QuestionModal.tsx): prefilling the form and
  validating the submitted question.
- `Uid` (lib/uid.ts): the fallback UUID generator, with its version and
  variant bits and hex formatting.
- `Middleware` (middleware.ts): the route gate.
- `TemplateLoad`, `Notes` and `HomePage` (app/home/page.tsx): the home-page
  controller, which covers:
  - loading and choosing a template;
  - superimposing the per-client layout overrides and hiding fields;
  - the label map and the save payload with its score;
  - the realtime record and note updates;
  - switching templates, hiding a field, and adding or editing a question.

  The page's mutable state is the class `HomePage.Session`. Each of its
  methods changes only the fields the handler sets. The pure parts of each
  handler are functions, with lemmas beside them. The client id is the
  URL's `client` parameter, or '' without one. Every handler's `!clientId`
  guard treats '' as no client, and so does the model.
- Support modules:
  - `JsString`: the JavaScript `trim`, `split`, `join`, `startsWith`,
    `replace` and number formatting the core relies on.
  - `StableSort`: `Array.prototype.sort`, which is stable, on lexicographic
    integer keys.
  - `Fields`: the `Field`/`Template` records of lib/types.ts.
  - `Wrappers`: `Option`.

Where the code and its documentation differ, the model follows the code:

- A question added to a template with no fields gets `y = 1`. `maxY` starts
  at 0 and the new field is placed one row below it.
- The page's label map keeps the last field with a given trimmed label. The
  test's reference lookup takes the first. The two agree when labels are
  distinct, and `HomePage.AgreesWithReference` proves that agreement.

## Model

| member | source | states |
|---|---|---|
| Layout.ConstantsConsistent | lib/layout.ts:3-11 | the size limits are consistent: minW ≤ DEFAULT_W ≤ maxW = gridCols = 10 and minH ≤ DEFAULT_H ≤ maxH |
| Layout.Rect | lib/layout.ts:22-38 | a cell is in the rectangle exactly when its row is in [y, y+h) and its column in [x, x+w) |
| Layout.CanPlace | lib/layout.ts:22-29 | the nested scan answers true exactly when no cell of the w×h rectangle at (x, y) is occupied |
| Layout.Occupy | lib/layout.ts:31-38 | afterwards the grid holds exactly the old cells plus the rectangle's cells |
| Layout.FindSpot | lib/layout.ts:43-56 | the `while (true)` scan ends at the first fit: inside the columns, free, and every earlier candidate in row-then-column order is blocked or too wide; it never goes below the first row with no occupied cell |
| Layout.NormalizeLayout | lib/layout.ts:18-58 | the output is the reading-order list with only x and y changed, each item at its first fit against the items placed before it; it keeps the length, stays inside the columns, and no two items share a cell (it requires every width to fit the columns; otherwise the source loops forever) |
| Layout.PackedExtend | lib/layout.ts:51-53 | placing the next item at its first fit extends a packing, and the grid grows by exactly that item's rectangle |
| Layout.OccupiedCovers | lib/layout.ts:52 | every placed item's cells are in the occupancy grid |
| Layout.OccupiedPrefix | lib/layout.ts:52 | an item placed earlier is in the grid every later item is checked against |
| Layout.PackedNoOverlap | lib/layout.ts:40-57 | any packing is pairwise overlap-free |
| Layout.FirstFitUnique | lib/layout.ts:43-56 | there is at most one first fit for a given grid and size |
| Layout.PackedAt | lib/layout.ts:53 | item k of a packing is the k-th sorted item with only its position changed, and that position is its first fit against the items before it |
| Layout.PackedPrefixUnique | lib/layout.ts:40-57 | two packings of the same sorted list agree on every prefix |
| Layout.PackedUnique | lib/layout.ts:40-57 | the packing is determined: two packings of the same sorted list are equal |
| Layout.FirstItemAtOrigin | lib/layout.ts:43-53 | the first item, if it fits the columns, lands at (0, 0) |
| Layout.LexLePair | lib/layout.ts:19 | the reading key [y, x] compares by y first and then by x, as `(a.y - b.y) \|\| (a.x - b.x)` does |
| Layout.ReadingOrderSpec | lib/layout.ts:19 | the sort is a permutation, orders by (y, x), and keeps items with equal (y, x) in their input order |
| Answers.Restrict | lib/answers.ts:6-13 | the restriction keeps exactly the keys in the id set, with their values |
| Answers.DistinctIds | lib/answers.ts:6 | the `Set` of field ids has the same members as the list and no repeats |
| Answers.MergeAnswers | lib/answers.ts:1-16 | the result's keys are exactly the field ids answered in current or in prev; a current answer wins; otherwise the saved one is kept; duplicate ids change nothing |
| Answers.MergeSelf | lib/answers.ts:1-16 | merging answers with themselves restricts them to the fields |
| Answers.MergeNoCurrent | lib/answers.ts:1-16 | with no current answers the saved ones are kept, restricted to the fields |
| Answers.MergeNoFields | lib/answers.ts:1-16 | with no fields the result is empty |
| Answers.MergeIdempotent | lib/answers.ts:1-16 | merging the result again with the same current answers changes nothing |
| Fields.FieldIds | lib/answers.ts:6 | the id list has one entry per field, in order |
| Fields.FieldIdsSet | lib/answers.ts:6 | the ids of the list are the ids of the fields |
| Recommendations.FirstWithLabel | lib/recommendations.test.mjs:5-11 | the reference's `find`: a found field is in the list with the trimmed label; none found means no field has it |
| Recommendations.PushFired | lib/recommendations.js:23-27 | the pushes of the five `if`s produce exactly the fired rules' recommendations, in rule order |
| Recommendations.ComputeRecommendations | lib/recommendations.js:9-31 | the result is the rule engine's list for the answers' signals: never empty, with strictly decreasing scores |
| Recommendations.FiredUnfold | lib/recommendations.js:23-27 | the fired list is the five rules' optional pushes concatenated in source order |
| Recommendations.FiredCons | lib/recommendations.js:23-27 | the fired list of a rule list is the first rule's push followed by the rest's |
| Recommendations.AllRulesComplete | lib/recommendations.js:23-27 | every rule is one of the five |
| Recommendations.ScoresDistinct | lib/recommendations.js:23-28 | no two rules share a score, and none scores like the fallback, so a score names its rule |
| Recommendations.RecommendNonEmpty | lib/recommendations.js:28 | there is always at least one recommendation |
| Recommendations.FiredMembers | lib/recommendations.js:23-27 | a recommendation is pushed exactly when it is the recommendation of a listed rule that fires |
| Recommendations.FiredDistinct | lib/recommendations.js:23-27 | rules with distinct scores push recommendations with distinct scores |
| Recommendations.RecommendStrictlyDecreasing | lib/recommendations.js:30 | the returned list is in strictly decreasing score order |
| Recommendations.RecommendMembers | lib/recommendations.js:28-30 | sorting neither adds nor drops a recommendation |
| Recommendations.FiredEmpty | lib/recommendations.js:23-28 | nothing is pushed exactly when no rule fires |
| Recommendations.FallbackExactlyWhenNoRule | lib/recommendations.js:28 | the onboarding entry appears exactly when no rule fires, and is then the only entry |
| Recommendations.RuleIff | lib/recommendations.js:23-27 | a rule's recommendation is in the result exactly when the rule fires |
| Recommendations.ScoreIff | lib/recommendations.js:23-27 | an entry with a rule's score is in the result exactly when the rule fires, and it is that rule's recommendation |
| Recommendations.SpreadsRule | lib/recommendations.js:23 | "Plan Spreads Bajos" (20) is recommended exactly when the pain points include "spreads altos" |
| Recommendations.ServerRule | lib/recommendations.js:24 | "Servidor Pro + VPS" (18) is recommended exactly when the pain points include "ejecución lenta" |
| Recommendations.VolumeRule | lib/recommendations.js:25 | "Cuenta ECN + Rebate" (25) is recommended exactly when the volume is a number ≥ 50 000 |
| Recommendations.CopyProRule | lib/recommendations.js:26 | "Programa Copy Pro" (22) is recommended exactly when the budget is ≥ 5000 and the client type is "Copytrader" |
| Recommendations.GoldRule | lib/recommendations.js:27 | "Rutas XAU baja latencia" (12) is recommended exactly when the instruments include "XAU" |
| Recommendations.LabelsTrimmed | lib/recommendations.js:14-18 | the five question labels have no surrounding white space, so `trim` leaves them as they are |
| Recommendations.MissingSignals | lib/recommendations.js:14-15 | a missing volume answer counts as 0 and fires nothing; a pain answer that is not an array counts as none |
| Recommendations.NoAnswersSignals | lib/recommendations.js:10-18 | with no answers every signal takes its default: no pains, 0 volume, 0 budget, no instruments, empty client type |
| Recommendations.NoAnswersGiveFallback | lib/recommendations.js:9-31 | an empty answer map yields exactly the onboarding fallback, whatever the label map |
| Recommendations.NoSignalsFallback | lib/recommendations.js:28 | the default signals yield exactly the onboarding fallback |
| Recommendations.LabelsDistinct | lib/recommendations.test.mjs:34-40 | the test's five labels are pairwise distinct, as are its five field ids; the labels have different lengths |
| Recommendations.GetHit | lib/recommendations.js:10-13 | a trimmed label mapped to a non-empty answered id reads that answer |
| Recommendations.GetTrims | lib/recommendations.js:10-13 | a label reads the same as its trimmed form |
| Recommendations.GetSpec | lib/recommendations.js:10-13 | an unknown label or one mapped to an empty id reads `undefined`; any other reading is the answer stored under the mapped id |
| Recommendations.TextNumberRoundTrip | lib/recommendations.js:15-18 | a whole amount's `String` text is its decimal digits, and `Number` reads it back, as text or as a one-element array |
| Recommendations.TestSignals | lib/recommendations.test.mjs:31-54 | the test's answers, read through its label map, give the pains "spreads altos" and "ejecución lenta", volume 60 000, budget 6000, instruments ["XAU"] and client type "Copytrader" |
| Recommendations.TestPainAndVolume | lib/recommendations.test.mjs:41-50 | through the test's label map, the pain label reads ["spreads altos", "ejecución lenta"] and the volume label reads 60000 |
| Recommendations.TestBudgetAndInstruments | lib/recommendations.test.mjs:41-52 | through the test's label map, the budget label reads 6000 and the instruments label reads ["XAU"] |
| Recommendations.TestClientType | lib/recommendations.test.mjs:41-53 | through the test's label map, the client-type label reads "Copytrader" |
| Recommendations.SignalsOfReads | lib/recommendations.js:14-18 | the signals are the five lookups' answers read as the source reads them: arrays or [], `Number(v ?? 0)` twice, arrays or [], and `String(v ?? '')` |
| Recommendations.FiredAll | lib/recommendations.js:23-27 | when all five rules fire, they are pushed in source order |
| Recommendations.AllRulesFire | lib/recommendations.js:23-30 | when all five rules fire, the result is ECN (25), Copy Pro (22), Spreads (20), Server (18), XAU (12) |
| Recommendations.TestResult | lib/recommendations.test.mjs:31-57 | on the test's answers and labels the engine returns all five rule recommendations in that score order |
| Recommendations.DecreasingUnique | lib/recommendations.js:30 | two strictly decreasing lists with the same elements are equal, so the sorted output does not depend on the push order |
| Confidence.AboveMonotone | lib/confidence.ts:1-15 | a higher score never exceeds fewer limits |
| Confidence.ReachedMonotone | lib/confidence.ts:17-25 | a higher score never reaches fewer limits |
| Confidence.ColorBandValues | lib/confidence.ts:1-7 | the colour band is 0 up to 20, 1 up to 40, 2 up to 60, 3 up to 80 and 4 above, with each limit inclusive |
| Confidence.ChipBandValues | lib/confidence.ts:17-25 | the chip band is 0 below 40, 1 below 70 and 2 from 70 on |
| Confidence.ColorByBand | lib/confidence.ts:1-7 | `scoreToColor` returns the colour of the score's band: red, orange, yellow, lime, green |
| Confidence.FaceByBand | lib/confidence.ts:9-15 | `scoreToFace` returns the face of the same band |
| Confidence.ChipByBand | lib/confidence.ts:17-25 | `scoreToChip` returns the Rojo, Ámbar or Verde chip of the score's chip band |
| Confidence.FaceAgreesWithColor | lib/confidence.ts:1-15 | the face and the colour always come from the same band |
| Confidence.BandsMonotone | lib/confidence.ts:1-25 | a higher score never gets a lower colour band or a lower chip band |
| Confidence.BoundaryMismatch | lib/confidence.ts:3-22 | the two scales disagree at their limits: 40 is orange yet Ámbar, and scores from 21 to 39 are orange yet Rojo |
| QuestionModal.Prefill | components/QuestionModal.tsx:28-34 | opening the modal for a new question gives an empty label, the text type and no options |
| QuestionModal.CleanOptions | components/QuestionModal.tsx:46 | every option kept from the comma-separated text is non-empty, trimmed and free of commas |
| QuestionModal.TrimmedNonBlankShape | components/QuestionModal.tsx:46 | `map(trim).filter(Boolean)` keeps at most as many pieces, each non-empty and trimmed |
| QuestionModal.TrimmedOptionsCommaFree | components/QuestionModal.tsx:46 | trimming pieces that contain no comma leaves no comma |
| QuestionModal.TrimmedNonBlankAppend | components/QuestionModal.tsx:46 | trimming and filtering a concatenation is the concatenation of the two results |
| QuestionModal.TrimmedNonBlankCons | components/QuestionModal.tsx:46 | the first piece is kept, trimmed, or dropped, ahead of the rest's result |
| QuestionModal.TrimmedNonBlankClean | components/QuestionModal.tsx:46 | options that are already non-empty and trimmed pass through unchanged |
| QuestionModal.HandleSubmit | components/QuestionModal.tsx:36-50 | a label that is blank after trimming is rejected; otherwise the question has the trimmed label, the chosen type, the edited field's id or else a fresh one, and cleaned options exactly for select and multiselect |
| QuestionModal.BlankRejected | components/QuestionModal.tsx:37-40 | submission is refused exactly when every character of the label is white space |
| QuestionModal.OptionsRoundTrip | components/QuestionModal.tsx:32-46 | clean options joined with commas for the form and split back on submit give the same options |
| QuestionModal.EditRoundTrip | components/QuestionModal.tsx:28-50 | opening a well-formed question and submitting it unchanged returns the same question |
| Uid.Digit | lib/uid.ts:17 | a value below 16 has a lower-case hex digit |
| Uid.DigitValue | lib/uid.ts:17 | reading a hex digit gives a value below 16 whose digit it is |
| Uid.ByteToString16 | lib/uid.ts:17 | `n.toString(16)` of a byte has one or two digits |
| Uid.PadStart | lib/uid.ts:17 | `padStart` reaches the width by putting fill characters in front, and keeps the text as the suffix |
| Uid.ToHex | lib/uid.ts:17 | every byte becomes exactly two hex digits |
| Uid.ToHexValues | lib/uid.ts:17 | the two digits are the byte's high and low nibbles |
| Uid.DigitRoundTrip | lib/uid.ts:17 | reading back a digit gives its value |
| Uid.ToHexDigits | lib/uid.ts:17 | `toString(16)` padded to two is the nibble pair |
| Uid.ToHexRoundTrip | lib/uid.ts:17 | two digits read back give the byte |
| Uid.ToHexInjective | lib/uid.ts:17 | different bytes give different digit pairs |
| Uid.Hex | lib/uid.ts:18-39 | a byte run becomes twice as many digits |
| Uid.HexAllHex | lib/uid.ts:18-39 | the digits are all hex digits |
| Uid.ParseHex | lib/uid.ts:18-39 | reading digits in pairs gives half as many bytes |
| Uid.ParseHexRoundTrip | lib/uid.ts:18-39 | a byte run's digits read back give the run |
| Uid.ParseToHex | lib/uid.ts:18-39 | reading a byte's digits ahead of a hex run reads that byte first |
| Uid.SetVersionIsBitwise | lib/uid.ts:15 | keeping the low nibble and adding 0x40 equals `(b & 0x0f) \| 0x40` |
| Uid.SetVariantIsBitwise | lib/uid.ts:16 | keeping the low six bits and adding 0x80 equals `(b & 0x3f) \| 0x80` |
| Uid.WithVersion | lib/uid.ts:15-16 | the marked bytes are still sixteen |
| Uid.Format | lib/uid.ts:18-39 | the formatted id has 36 characters |
| Uid.Parse | lib/uid.ts:18-39 | reading a UUID-shaped text gives sixteen bytes |
| Uid.GroupsHex | lib/uid.ts:18-39 | the five groups of a UUID-shaped text are hex runs |
| Uid.DashJoinGroups | lib/uid.ts:18-39 | dashes sit at 8, 13, 18 and 23 and the groups between them are the parts |
| Uid.DashJoinShaped | lib/uid.ts:18-39 | joining 8-4-4-4-12 hex groups gives a UUID-shaped text that reads back as the groups' bytes |
| Uid.FormatRoundTrip | lib/uid.ts:18-39 | the formatted id is UUID-shaped and reads back as the sixteen bytes, so no two byte runs share an id |
| Uid.WithVersionPreserves | lib/uid.ts:13-16 | only bytes 6 and 8 change: byte 6 keeps its low nibble and gets high nibble 4, and byte 8 keeps its low six bits and gets top bits 10 |
| Uid.VersionAndVariant | lib/uid.ts:15-39 | the id shows version digit '4' at position 14 and a variant digit from "89ab" at position 19 |
| Uid.MarkedDigits | lib/uid.ts:18-39 | bytes with those nibbles show those digits |
| Uid.VersionDigit | lib/uid.ts:17 | a byte with high nibble 4 starts with '4' |
| Uid.VariantDigit | lib/uid.ts:17 | a byte with high nibble 8 to 11 starts with one of "89ab" |
| Uid.GroupHeads | lib/uid.ts:27-30 | positions 14 and 19 are the first digits of bytes 6 and 8 |
| Uid.NibbleBounds | lib/uid.ts:15-16 | the version byte's high nibble is 4 and the variant byte's is 8 to 11 |
| Uid.Generate | lib/uid.ts:12-39 | the fallback id is the 16 random bytes with version and variant set, formatted; it is UUID-shaped with '4' at position 14 and one of "89ab" at 19, and it reads back as those bytes |
| Middleware.Cookie | middleware.ts:16-18 | a cookie read has a value exactly when the request carries that cookie |
| Middleware.Gate | middleware.ts:6-28 | a public path always passes |
| Middleware.RedirectIff | middleware.ts:10-25 | a request is redirected exactly when its path is not public, starts with /home and carries no credential; the redirect keeps origin and query and sets the path to /login |
| Middleware.PublicIsExact | middleware.ts:4-12 | public paths match whole, not as prefixes ("/login/" is not public), and none is under /home |
| Middleware.NoRedirectLoop | middleware.ts:21-25 | the login URL a redirect targets passes the gate whatever the cookies, so redirects never chain |
| Middleware.BearerCredential | middleware.ts:19 | an authorization header is falsy after removing the first "Bearer " exactly when it is "" or "Bearer " |
| Middleware.CredentialIff | middleware.ts:15-19 | there is a credential exactly when one of the three session cookies has a non-empty value or the header is neither "" nor "Bearer " |
| Middleware.SignedOutRedirected | middleware.ts:15-25 | session cookies with empty values count as absent: a /home request with them and no header is redirected to /login |
| JsString.TrimStart | lib/recommendations.js:11 | only leading white space is removed, and the result starts with a non-space character |
| JsString.TrimEnd | lib/recommendations.js:11 | only trailing white space is removed, and the result ends with a non-space character |
| JsString.Trim | lib/recommendations.js:11 | the trimmed text is no longer than the input and neither starts nor ends with white space |
| JsString.TrimFixesTrimmed | lib/recommendations.js:11 | trimming leaves a text unchanged exactly when it has no white space at either end |
| JsString.TrimIdempotent | lib/recommendations.js:11 | trimming twice is trimming once |
| JsString.TrimBlank | components/QuestionModal.tsx:37 | a text trims to "" exactly when it is all white space |
| JsString.TrimInside | components/QuestionModal.tsx:46 | trimming adds no character, so a comma-free piece stays comma-free |
| JsString.Split | components/QuestionModal.tsx:46 | `split(',')` gives at least one piece, and no piece contains the separator |
| JsString.SplitAfterPiece | components/QuestionModal.tsx:46 | splitting a separator-free piece, a separator and a rest gives the piece ahead of the rest's split |
| JsString.SplitNoSeparator | components/QuestionModal.tsx:46 | a text without the separator splits into itself |
| JsString.SplitJoin | components/QuestionModal.tsx:32-46 | splitting a join of separator-free pieces gives the pieces back |
| JsString.IndexFrom | middleware.ts:19 | the search finds the first occurrence at or after the start, or reports that there is none |
| JsString.ReplaceFirst | middleware.ts:19 | with no occurrence the text is unchanged; otherwise the text before the first occurrence is kept, the occurrence becomes the replacement, the text after it is kept, and the length changes by the difference |
| JsString.DigitChar | lib/recommendations.js:21 | a digit value 0-9 gives the digit character whose distance from '0' is that value |
| JsString.NatToString | lib/recommendations.js:21 | a number's decimal text is non-empty, all digits, with no leading zero |
| JsString.NatToStringValue | lib/recommendations.js:21 | the decimal text of a number has that number as its digits' value |
| StableSort.LexReflexive | lib/layout.ts:19 | a key sorts no later than itself |
| StableSort.LexTotal | lib/layout.ts:19 | any two keys are comparable |
| StableSort.LexTransitive | lib/layout.ts:19 | the key order is transitive |
| StableSort.LexAntisymmetric | lib/layout.ts:19 | keys that sort both ways are equal |
| StableSort.InsertPermutes | lib/layout.ts:19 | inserting adds exactly the one element |
| StableSort.SortByPermutes | lib/layout.ts:19 | sorting is a permutation |
| StableSort.InsertSorted | lib/layout.ts:19 | inserting into a sorted list keeps it sorted |
| StableSort.SortBySorted | lib/layout.ts:19 | the sorted list is in key order |
| StableSort.InsertKeepsTies | lib/layout.ts:19 | an inserted element goes in front of the elements with an equal key, matching its earlier input position |
| StableSort.SortByStable | lib/layout.ts:19 | elements with equal keys keep their input order, as a stable `Array.prototype.sort` does |
| StableSort.DistinctClass | lib/layout.ts:19 | with distinct keys each key's class holds at most one element |
| StableSort.SortByDistinct | lib/layout.ts:19 | sorting keeps keys distinct |
| StableSort.SortBySingle | lib/layout.ts:19 | a one-element list sorts to itself |
| StableSort.SortBySortedIdentity | lib/layout.ts:19 | an already sorted list is left unchanged |
| StableSort.LexLeSingle | app/home/page.tsx:85 | one-number keys compare as numbers |
| StableSort.LexLeTriple | app/home/page.tsx:556-566 | three-number keys compare by the first, then the second, then the third |
| TemplateLoad.SortTplFields | app/home/page.tsx:83-86 | the template keeps its id and name; its fields are a permutation sorted by `order`, with ties in input order |
| TemplateLoad.SortedByOrder | app/home/page.tsx:85 | the stable sort by `order` is a permutation, is sorted and keeps ties in order |
| TemplateLoad.PrepareTemplates | app/home/page.tsx:515-518 | each fetched template is normalized and sorted, in list order |
| TemplateLoad.FindTemplate | app/home/page.tsx:522 | `find` by id returns a listed template with that id, or nothing exactly when no template has it |
| TemplateLoad.FindTemplateFirst | app/home/page.tsx:522 | `find` returns the first template with the id |
| TemplateLoad.ChooseTemplate | app/home/page.tsx:520-524 | a template is chosen exactly when the list is non-empty, and it comes from the list |
| TemplateLoad.ChooseTemplateSpec | app/home/page.tsx:520-524 | the record's template is chosen when its non-empty id is listed; otherwise the first template is |
| TemplateLoad.SuperimposeSpec | app/home/page.tsx:542-555 | an override changes only geometry and order, a field without an override is untouched, and superimposing twice is superimposing once |
| TemplateLoad.SuperimposeAll | app/home/page.tsx:542-555 | each field gets its own override, in place |
| TemplateLoad.ApplyOverrides | app/home/page.tsx:540-568 | the fields are the superimposed fields, re-sorted by (order, y, x), with fields of equal (order, y, x) kept in their old order |
| TemplateLoad.SortedByLayout | app/home/page.tsx:556-566 | the stable sort by (order, y, x) is a permutation in that order |
| TemplateLoad.ApplyOverridesIdempotent | app/home/page.tsx:688-736 | applying the same overrides again changes nothing, so re-running the override effect is harmless |
| TemplateLoad.NoOverridesKeepsSorted | app/home/page.tsx:540-568 | without overrides, fields already in (order, y, x) order stay as they are |
| TemplateLoad.WithoutHidden | app/home/page.tsx:369-372 | the visible fields are exactly the fields not hidden, in order |
| TemplateLoad.VisibleFields | app/home/page.tsx:369-372 | with no template nothing is visible; otherwise exactly its fields that are not hidden |
| TemplateLoad.VisibleIff | app/home/page.tsx:534-538 | a field is visible exactly when it is in the template and its override does not say hidden |
| TemplateLoad.WithoutHiddenAppend | app/home/page.tsx:369-372 | filtering a concatenation filters each part |
| TemplateLoad.NothingHidden | app/home/page.tsx:369-372 | when no field is hidden, all fields are visible |
| TemplateLoad.LoadTemplate | app/home/page.tsx:515-568 | the templates are the prepared list; a template is chosen exactly when the list is non-empty, and it is the one the record names when that is in the list, else the first; the hidden set comes from the overrides; the active template has the chosen template's normalized id and name, and its fields are the chosen template's superimposed fields in (order, y, x) order |
| Notes.NotesOfMembers | app/home/page.tsx:570-574 | a field's notes are exactly the notes of the list that carry its id |
| Notes.FieldsOfIsSet | app/home/page.tsx:570-574 | the grouped field ids are the ids the notes carry |
| Notes.NotesOfAbsent | app/home/page.tsx:570-574 | a field no note belongs to has no notes |
| Notes.GroupNotes | app/home/page.tsx:570-574 | the grouping has a list for exactly the fields with notes, each holding that field's notes in list order |
| Notes.FindIndex | app/home/page.tsx:473 | `findIndex` gives -1 exactly when no note has the id, and otherwise the first position that has it |
| Notes.RemoveNote | app/home/page.tsx:474-475 | a deletion splices out one note with the id, or leaves the list unchanged if there is none |
| Notes.UpsertNote | app/home/page.tsx:476-478 | a change replaces the note with the id in place, or appends the note if there is none |
| Notes.PatchNotes | app/home/page.tsx:467-485 | a payload without a note or without a field id asks for a refetch; otherwise only the note's field list changes: on a deletion it loses the note with the note's id, on any other event the note replaces the one with its id or is appended, and that field is then grouped |
| Notes.PatchList | app/home/page.tsx:471-479 | the copied list is spliced on a deletion and replaced or appended otherwise |
| Notes.PatchedField | app/home/page.tsx:467-482 | after a patch the field's note ids stay unique; a deletion leaves no note with the id; any other change leaves exactly the new note with it |
| Notes.RemoveKeepsUnique | app/home/page.tsx:474-475 | removing keeps ids unique and leaves none with the removed id |
| Notes.SpliceUnique | app/home/page.tsx:475 | splicing out a position keeps ids unique and drops its id |
| Notes.UpsertKeepsUnique | app/home/page.tsx:476-478 | replacing or appending keeps ids unique and leaves the note as the only one with its id |
| Notes.DeleteUndoesInsert | app/home/page.tsx:474-478 | inserting a new note and then deleting it restores the list |
| Notes.UpsertIdempotent | app/home/page.tsx:476-478 | receiving the same change twice is the same as receiving it once |
| Notes.FindIndexAt | app/home/page.tsx:473 | the first position holding the id is the one found |
| HomePage.LayoutOverrides | app/home/page.tsx:404-410 | the override map built by the loop is the map of the reading-ordered layout |
| HomePage.OverrideMapKeys | app/home/page.tsx:407-410 | the map has an entry for exactly the layout's item ids |
| HomePage.OverrideMapLastWins | app/home/page.tsx:407-410 | the last item with an id sets that id's entry, from its own geometry and position |
| HomePage.PermutationKeepsUniqueKeys | app/home/page.tsx:404-406 | reordering a layout with unique ids keeps them unique |
| HomePage.OverrideOrdersDense | app/home/page.tsx:404-410 | with unique ids each item gets its reading-order position as its `order`: every id has an entry, the orders are distinct, and they lie in 0..n-1 |
| HomePage.ReplaceById | app/home/page.tsx:655-657 | each template with the latest's id is replaced by it, and every other template is kept in place |
| HomePage.ReplaceByIdSpec | app/home/page.tsx:655-657 | ids stay in place, every template with the id is the latest, replacing twice is replacing once, and with no such id nothing changes |
| HomePage.Serialized | app/home/page.tsx:769 | the answers the JSON text spells out: exactly the answers whose value is not `undefined`, with their values |
| HomePage.SnapshotIff | app/home/page.tsx:769-770 | two answer sets give the same snapshot exactly when every field id reads the same answer in both, a missing answer reading as `undefined` |
| HomePage.SnapshotIgnoresUndefined | app/home/page.tsx:769-770 | an answer set to `undefined` leaves the same snapshot as a removed answer |
| HomePage.BuildLabelMap | app/home/page.tsx:738-744 | the memo's loop builds the trimmed label to id map, a later field overwriting an earlier one, and is empty with no template |
| HomePage.KeyedIdsEntries | app/home/page.tsx:738-744 | every entry of the map is some field's trimmed label mapped to that field's id |
| HomePage.KeyedIdsUnique | app/home/page.tsx:738-744 | with distinct labels every field's label maps to its id |
| HomePage.LookupAgrees | lib/recommendations.test.mjs:5-11 | with distinct trimmed labels and non-empty ids, looking a label up through the map reads the same answer as the reference's template scan |
| HomePage.LookupFound | app/home/page.tsx:738-744 | with distinct labels and non-empty ids, a field with a given trimmed label is the one the map names for it |
| HomePage.LookupMissing | app/home/page.tsx:738-744 | a trimmed label no field has is not in the map |
| HomePage.AgreesWithReference | lib/recommendations.test.mjs:5-57 | under the same conditions the engine fed by the page's label map returns what the reference implementation returns |
| HomePage.ScoreSumAppend | app/home/page.tsx:779 | the total of a concatenation is the sum of the totals |
| HomePage.ScoreSumPermutation | app/home/page.tsx:779 | the total does not depend on the order, so sorting does not change it |
| HomePage.PushedScore | app/home/page.tsx:779 | a rule adds its score when it fires and nothing otherwise |
| HomePage.FiredTotal | app/home/page.tsx:779 | the total of the fired list is the sum of the fired rules' scores |
| HomePage.ScoreBounds | app/home/page.tsx:778-779 | the saved score is 8 exactly when no rule fires; otherwise it is the fired rules' total, between 12 and 97 |
| HomePage.FiredShares | app/home/page.tsx:779 | when a rule fires, the rule shares add up to between 12 and 97 |
| HomePage.MaxBottomSpec | app/home/page.tsx:1196-1199 | `maxY` is at least 0, at least every field's bottom (with a default height of 3), and either 0 or some field's bottom |
| HomePage.NewFieldClear | app/home/page.tsx:1195-1207 | a new question goes below every field, at y ≥ 1, sharing no cell with any of them, and its order is the number of fields |
| HomePage.AddQuestion | app/home/page.tsx:1195-1210 | adding keeps the template's id, name and fields and appends exactly the new field; with no template nothing happens |
| HomePage.EditFields | app/home/page.tsx:1176-1190 | each field is replaced by its edited form, in place |
| HomePage.EditSpec | app/home/page.tsx:1174-1193 | editing keeps the id, the name and every field's position, size and order; fields with another id are untouched; the edited field carries the question's label, type and options; editing twice is editing once |
| HomePage.Session.constructor | app/home/page.tsx:316-366 | a fresh page keeps the URL's client id (empty when there is none) and has no templates, no template, no answers, no snapshot, nothing hidden and no notes |
| HomePage.Session.Load | app/home/page.tsx:491-574 | without a client (an empty id) nothing changes; otherwise the page state after loading: the prepared templates, the chosen and overridden template (kept when the list is empty), the hidden set from the overrides, the record's answers with their snapshot, and the notes grouped by field |
| HomePage.Session.LoadTemplates | app/home/page.tsx:515-568 | templates, template and hidden set are those of the template load |
| HomePage.Session.LoadRecord | app/home/page.tsx:526-574 | answers and snapshot come from the record, or are empty and cleared without one, and notes are grouped by field |
| HomePage.Session.RefreshOverrides | app/home/page.tsx:688-736 | while loading, without a client (an empty id) or without a template with a non-empty id nothing changes; otherwise the hidden set is taken from the overrides, and a non-empty override map is applied to the template's fields |
| HomePage.Session.OnRecordChange | app/home/page.tsx:457-465 | a record update replaces the answers and the snapshot; an update without a record asks for a refetch and changes nothing |
| HomePage.Session.OnNoteChange | app/home/page.tsx:466-486 | the notes become the patched grouping, or stay as they were when a refetch is needed |
| HomePage.Session.ShowTemplate | app/home/page.tsx:648-657 | the switched-to template is normalized and sorted, becomes the active one, and replaces its namesake in the list |
| HomePage.Session.SwitchTemplate | app/home/page.tsx:629-666 | without a client (an empty id) or once unmounted nothing changes; otherwise, besides showing the template, the answers become the merge of the saved and the current answers over its fields, so every current answer to one of its fields survives; the snapshot is that of the record's answers |
| HomePage.Session.Save | app/home/page.tsx:766-790 | nothing is sent without a client (an empty id) or a template, or when not forced and the answers' snapshot (their defined answers) equals the last one; otherwise the payload is the template's id, the answers, the recommendations for the page's label map and their total score, and the snapshot advances to the answers' only when the write succeeds |
| HomePage.Session.HideField | app/home/page.tsx:754-765 | the field joins the hidden set only when there is a client (a non-empty id) and the write succeeds |
| HomePage.Session.SubmitQuestion | app/home/page.tsx:1173-1211 | the template becomes the edited template when an existing question is edited, and the template with the new question appended otherwise |
| HomePage.SaveTwice | app/home/page.tsx:768-781 | a second unforced save right after a successful one sends nothing |

## Left out

- Network, database and I/O: every read and write goes to a hosted database. The model takes each fetched value as a parameter and each write's success as a boolean. Error messages, alerts and retries are not modelled.
- React and timers: rendering, effects' dependency lists, `useMemo`, the debounce delays and the realtime subscription's setup are not modelled. Each handler is a method called with the event's payload. The `mounted` flag is a parameter of `SwitchTemplate` and is not modelled elsewhere.
- The client row and the confidence card state are not modelled. `loadAll` without a client resets them and loads nothing, and `Session.Load` models only the loading nothing.
- The `loading` flag of the override effect is a parameter; the `ready` and `isSwitching` flags are not modelled.
- `crypto.randomUUID` is not modelled, because its output is the platform's. `Math.random` is replaced by the sixteen drawn bytes, given as a parameter.
- The middleware's `matcher` configuration is not modelled, because it is routing configuration. The request URL is reduced to origin, pathname and search.
- `normalizeTemplate` is a function parameter with no properties assumed. Its file is not part of this model.
- Recommendations.ToNumber: `Number()` is modelled for numbers, null, blank text, decimal digit strings and arrays of at most one element. Every other string gives NaN, which fails every comparison. JavaScript reads more strings as numbers: a leading sign, a decimal point, an exponent, "Infinity", and the 0x, 0o and 0b literals. These are not modelled, because the answers in question are whole amounts.
- Recommendations.ReasonFor: the volume reason's `toLocaleString` text is left as an uninterpreted reason carrying the volume. Locale formatting belongs to the platform.
- Scores are natural numbers; no floating point is used.
- The recommendation `id` is derived from title and score. It is not a stored field.
- The save payload's `answers` is the session's answers. The page keeps a `latestAnswers` ref that mirrors them.
- The snapshot comparison `JSON.stringify(answers) === lastSavedRef.current` is modelled as equality of the answer maps with their `undefined` answers removed (`HomePage.Serialized`), which is what the JSON text drops. Key order, which `JSON.stringify` also exposes, is not modelled: two answer sets with the same entries in a different insertion order count as equal here but give different texts.
- The hidden field list is a set, because the page only tests it with `includes` and appends ids.
- A realtime DELETE payload without an old row is treated as a note with empty fields. A note's author and timestamps are not modelled, because no handler reads them.
- The ConfidenceCard's clamping of the score is not modelled; only the three band functions of lib/confidence.ts are. Emoji are their code points.
- `applyLayoutChanges` and the layout save debounce are not modelled beyond the override map they build.
- The comparators' `?? 0` fallbacks are not modelled: fields and overrides always carry the numbers compared here.
- Uid: the bitwise `&`/`|` on bytes is written as arithmetic, and `SetVersionIsBitwise` and `SetVariantIsBitwise` prove the two agree on every byte.
- Layout.FindSpot: termination uses a ghost row bound, the first row with no occupied cell. The source has no such bound and relies on the grid being finite.
- Layout.NormalizeLayout requires every item to fit the column count; an item wider than the grid makes the source loop forever.
- HomePage.AgreesWithReference holds for templates with distinct trimmed labels and non-empty ids. With duplicate labels the page's map keeps the last field and the reference keeps the first.
- Recommendations.TestResult states the test's output for the label map it passes. That this map is the template's label map follows from `HomePage.AgreesWithReference` and is not proved again for the literal template.
- The `label` property of fields, questions and chips is named `caption`.
- The `LayoutOverride` record is modelled from its uses on the page: geometry, order and hidden.
- `Field.order`, used by the page's sort, is modelled as a field of `Field`.
