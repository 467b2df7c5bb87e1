# tailwind-add-prefix: the per-document rewrite

This project models the per-document body of `setup` in `src/index.ts`, lines 14-49, and proves properties of the model. `setup` rewrites the class lists of the documents it is given: every token that the Tailwind engine recognises as a utility gets a prefix (`tw-` by default).

For one document the code does the following:

1. It finds every class region of the text: a non-empty run of non-`"` characters directly after `class="` (`matchAll` of `(?<=class=")([^"]+)`).
2. It splits each region on single spaces and asks the utility oracle about each token. A recognised token becomes `prefix + t`, or `!` + prefix + the rest when `t` starts with `!`. The tokens are joined again with single spaces.
3. A region that comes back changed bumps a counter `i` and gets a placeholder key of exactly its own length: `$`, then underscores, then the digits of `i`. The key is spliced into the buffer `newContent` at the region's offset in the original text, and the key and new text go into an insertion-ordered map.
4. Afterwards each key, in insertion order, is replaced by its new text. This uses `String.prototype.replace`, which acts on the first occurrence only.
5. The document is written only when the result differs from what was read.

Because every key is as long as its region, the buffer keeps the length of the original text. The offsets taken from the original text therefore still point at the regions that have not been handled yet.

Modules, in dependency order:

- `Wrappers`: `Option`.
- `JsString`: the JavaScript string operations the code calls.
  - `split(' ')` and `join(' ')`.
  - `toString()` on a counter.
  - `repeat` and `slice`.
  - `indexOf`, and `replace` with a string pattern. `replace` includes the `$$`, `$&`, `` $` `` and `$'` substitutions of ECMA-262 GetSubstitution.
- `ClassLocator`: the regular expression, written as a left-to-right scan over the untouched text.
- `TokenTransformer`: the per-token map and the join (lines 24-32). The oracle `generated` is a parameter `isUtility: string -> bool`. It is asked about the token exactly as written, leading `!` included, as line 25 does.
- `Rewriter`: placeholder keys, splices at offsets of the original text, and the resolution loop. It proves that resolving the keys gives the same text as splicing every new text directly at its own offset.
- `DocumentProcessor`: the whole document, in two forms.
  - The function `Rewrite` is the specification.
  - The methods `PlaceKeys`, `ResolveKeys` and `ProcessDocument` are the two loops. They update the buffer (a `seq<char>`), the counter and the ordered map (a `seq<Entry>`), and are proved equal to the specification.
  - A changed region too short for its key is abandoned and its offset is reported in `tooShort`. The code as written does something else there (see Findings).
- `AsWritten`: the first loop as written at line 41, including the `new Error('不支持')` key (with lengths counted in characters; see "## Left out"). It proves that this loop agrees with `Rewrite` whenever every key fits, and gives a document on which the two differ.
- `Example`: `<a class="flex foo"><b class="flex"></b></a>` with `flex` recognised and prefix `tw-` becomes `<a class="tw-flex foo"><b class="tw-flex"></b></a>`. Also, `!hidden flex` becomes `!tw-hidden tw-flex`.

The map of lines 17 and 42 is a sequence of entries. A JavaScript `Map` keeps insertion order. In the corrected model no key is set twice (`PlanKeysDistinct`). In the as-written model every `Error` key is a fresh object. So appending to the sequence is what `map.set` does in both cases.

## Model

| member | source | states |
|---|---|---|
| ClassLocator.Regions | src/index.ts:19-22 | Each match directly follows `class="` in the original text, is non-empty, holds no `"`, and runs up to the next `"` or the end of the text. Matches come left to right, apart from each other. Their offsets are exactly the positions where the pattern can match. So the guard of line 21 never fires. |
| ClassLocator.ScanFrom | src/index.ts:19 | The scan from a position finds every match at or after it, each well placed and in increasing order. |
| ClassLocator.NothingInsideRun | src/index.ts:19 | No match can start inside a run of non-`"` characters, so resuming the search after a run loses no match. |
| JsString.Split | src/index.ts:24 | `split(' ')` gives one piece more than there are spaces, and no piece holds a space. |
| JsString.Join | src/index.ts:32 | `join(' ')`: the pieces with one space between each two. It has no contract of its own; `JsString.JoinSplit` and `JsString.SplitJoin` prove it inverse to `Split`. |
| JsString.JoinSplit | src/index.ts:24-32 | Joining the pieces of a split gives back the original string. |
| JsString.SplitJoin | src/index.ts:24-32 | Splitting a join of space-free pieces gives back the pieces. |
| JsString.Decimal | src/index.ts:40-41 | `i.toString()` is a non-empty string of digits with no leading zero. |
| JsString.ParseDecimalOfDecimal | src/index.ts:40-41 | Reading the digits of a counter back gives the counter. |
| JsString.DecimalInjective | src/index.ts:40-41 | Different counters have different digit strings. |
| JsString.Repeat | src/index.ts:41 | `'_'.repeat(n)` is `n` underscores. |
| JsString.Slice | src/index.ts:43 | `slice` with in-range arguments is the sub-sequence. With any arguments it is no longer than the string. |
| JsString.IndexFrom | src/index.ts:46 | The search returns the first position at which the pattern occurs, or reports that it occurs nowhere. |
| JsString.IndexOf | src/index.ts:46 | `indexOf` on a string pattern: the position it gives holds the pattern, and no earlier position does. When it gives none, the pattern occurs nowhere. |
| JsString.Replace | src/index.ts:46 | `replace` with a string pattern. When the pattern does not occur, the text is unchanged. Otherwise only the first occurrence is replaced, and a `$`-free replacement is inserted as it is. |
| JsString.Substitution | src/index.ts:46 | A replacement text without `$` is inserted as it is. |
| JsString.ReplaceFirstKey | src/index.ts:46 | A key starting with `$` that follows a `$`-free text is first found right there, and `replace` swaps exactly that occurrence. |
| TokenTransformer.TransformToken | src/index.ts:25-31 | A token the oracle rejects comes back identical. A recognised token gets exactly the prefix's length more. A recognised `!t` becomes `!` + prefix + `t`, with the `!` kept in front. |
| TokenTransformer.MapTokens | src/index.ts:24-32 | The mapped list is as long as the input, and its k-th token is the k-th input token transformed, so order is kept. |
| TokenTransformer.TransformRegion | src/index.ts:24-32 | The new text of one class list: split, each token transformed, joined. It has no contract of its own. Its properties are the lemmas below: `TokensPreserved` (token count and order), `LengthGrowth` (length), `UnchangedIff` (the skip test of line 36) and `Idempotent`. |
| TokenTransformer.TokensPreserved | src/index.ts:24-32 | With a space-free prefix, splitting the output on spaces gives as many tokens as the input, each the transform of the token at the same position. |
| TokenTransformer.LengthGrowth | src/index.ts:24-32 | The new class list is longer than the old one by the prefix's length times the number of recognised tokens. |
| TokenTransformer.UnchangedIff | src/index.ts:24-37 | A class list comes back unchanged exactly when the prefix is empty or no token is recognised. |
| TokenTransformer.NothingToPrefix | src/index.ts:24-37 | With an empty prefix or no recognised token the class list is unchanged. |
| TokenTransformer.ChangedIsLonger | src/index.ts:24-37 | A class list that changes at all comes back strictly longer. |
| TokenTransformer.Avoids | src/index.ts:24-32 | A character other than a space that is in neither the class list nor the prefix is not in the result. |
| TokenTransformer.Idempotent | src/index.ts:24-32 | Suppose the prefix has no space and the oracle never recognises a token it has already prefixed. Then transforming a second time changes nothing. |
| Rewriter.Placeholder | src/index.ts:38-41 | There is a key exactly when `rest = length - digits(i) > 1`. The key is as long as the region. It is `$`, then `rest - 1` underscores, then the digits of `i`. |
| Rewriter.PlaceholdersDistinct | src/index.ts:39-41 | Keys for different counters differ, whatever the region lengths. |
| Rewriter.PlaceholderPhaseAt | src/index.ts:43 | After the placeholder phase the buffer holds each key at its region's position, and the original character everywhere else. This includes every region not yet handled. |
| Rewriter.PlaceholderPhaseAppend | src/index.ts:42-43 | Splicing one more key at its original offset is the step of lines 42-43: the map gains one entry, and the changes stay ordered with fitting keys. |
| Rewriter.PlaceholderPhase | src/index.ts:16-44 | The buffer after the first loop, for ordered changes with fitting keys. It is exactly as long as the original text, and `Rewriter.PlaceholderPhaseAt` says what it holds at every position. |
| Rewriter.SpliceLength | src/index.ts:43 | Splices of same-length texts keep the length of the text. |
| Rewriter.ResolveAll | src/index.ts:45-46 | The loop of lines 45-46 over the map's entries in insertion order, one `replace` each. It has no contract of its own; `Rewriter.ResolveFrom` and `Rewriter.TwoPhaseIsDirect` say what it computes. |
| Rewriter.ResolveStep | src/index.ts:45-46 | Replacing the j-th key in a buffer whose earlier keys are already resolved turns exactly that region into its new text. |
| Rewriter.ResolveFrom | src/index.ts:45-46 | Resolving the remaining keys in insertion order gives the direct splice of all new texts. |
| Rewriter.TwoPhaseIsDirect | src/index.ts:41-46 | For ordered changes with fitting keys, in a text and new texts without `$`, the two phases give the original text with each changed region replaced by its new text at its own offset. |
| Rewriter.TwoPhase | src/index.ts:16-46 | Both loops, as a function of the changes and their keys. It has no contract of its own; `Rewriter.TwoPhaseIsDirect` proves it equal to `Direct`. |
| Rewriter.Direct | src/index.ts:41-46 | The reference the two phases are measured against: every changed region replaced by its new text at its own offset in the original text. It has no contract of its own; `Rewriter.TwoPhaseIsDirect` and `Rewriter.DirectLonger` are about it. |
| Rewriter.DirectLonger | src/index.ts:46 | Each region that grows makes the result at least one character longer. |
| DocumentProcessor.Changes | src/index.ts:36-39 | Exactly the regions the transform changes survive line 36, each paired with its new text. |
| DocumentProcessor.ChangesComplete | src/index.ts:36-39 | Every region that the transform changes is among the changes, with its offset, old text and new text. |
| DocumentProcessor.ChangesFromRegions | src/index.ts:36-39 | Every change comes from a region at the same offset with the same text. |
| DocumentProcessor.ChangesOrdered | src/index.ts:19-43 | The changes lie inside the text, left to right, without overlap. |
| DocumentProcessor.DocumentChanges | src/index.ts:19-39 | The changed regions of a document, found in its untouched text. They lie inside the text, left to right, without overlap. |
| DocumentProcessor.DocumentPlan | src/index.ts:19-42 | The kept changes of a document with their keys. The kept changes stay ordered, and each key is as long as its region and starts with `$`. |
| DocumentProcessor.PlanFor | src/index.ts:38-42 | The kept changes have fitting keys. There are as many kept and reported changes together as there are changes. When none is reported, all are kept. Which change goes where is stated by `PlanOrigins`, `TooShortOrigins` and `PlanCovers`. |
| DocumentProcessor.PlanOrigins | src/index.ts:39-42 | The change kept in the k-th place is the a-th change, with the key for counter `a + 1`. |
| DocumentProcessor.PlanCovers | src/index.ts:39-42 | The converse of `PlanOrigins` and `TooShortOrigins`. The a-th change is kept, with the key for counter `a + 1`, whenever that key fits. Its offset is reported whenever the key does not fit. |
| DocumentProcessor.TooShortOrigins | src/index.ts:39-42 | Each reported offset is that of a change whose counter leaves no room for a key. |
| DocumentProcessor.PlanKeysDistinct | src/index.ts:39-42 | No two keys of a document are equal. |
| DocumentProcessor.KeptOrdered | src/index.ts:43 | The kept changes stay ordered. |
| DocumentProcessor.PlanFitsIff | src/index.ts:40-41 | Nothing is reported exactly when every change has room for its key. |
| DocumentProcessor.Rewrite | src/index.ts:14-48 | Write exactly when the text changed. A document with no changed region comes back as it is: not written, nothing reported. |
| DocumentProcessor.NoneTooShort | src/index.ts:40-42 | A document reports no region exactly when every changed region has room for its key, and then every changed region is rewritten. |
| DocumentProcessor.RewriteIsDirect | src/index.ts:41-46 | For a text and a prefix without `$`, the result is the original text with every kept change's region replaced by its new text at its own offset. |
| DocumentProcessor.WrittenIffRewritten | src/index.ts:47-48 | For a text and a prefix without `$`, the document is written exactly when some region is rewritten. |
| DocumentProcessor.ChangesStep | src/index.ts:36-39 | One more region adds a change exactly when the transform alters it. |
| DocumentProcessor.PlanSnoc | src/index.ts:39-42 | One more change either is kept with the next key or, when no key fits, is reported. |
| DocumentProcessor.SkipUnchanged | src/index.ts:36-37 | An unchanged region leaves the counter, the map, the buffer and the report as they were. |
| DocumentProcessor.PlaceOne | src/index.ts:38-43 | A changed region whose key fits bumps the counter, adds its entry and puts its key in the buffer, keeping the loop invariant. |
| DocumentProcessor.SkipTooShort | src/index.ts:39-41 | A changed region too short for its key bumps the counter and is reported, and the buffer and the map stay as they were. |
| DocumentProcessor.BufferFits | src/index.ts:43 | Every region's span lies inside the buffer, since the buffer keeps the text's length. |
| DocumentProcessor.PlaceRegion | src/index.ts:20-43 | One pass of the first loop's body takes the loop state after n regions to the state after n + 1. |
| DocumentProcessor.PlaceKeys | src/index.ts:16-44 | The first loop ends with the placeholder-phase buffer, the ordered map of the plan and the reported offsets of the plan. |
| DocumentProcessor.ResolveKeys | src/index.ts:45-46 | The second loop replaces each key in insertion order. |
| DocumentProcessor.ProcessDocument | src/index.ts:15-48 | The two loops and the test of line 47 compute `Rewrite`. For a text and a prefix without `$`, the text is the direct splice of every kept change. |
| AsWritten.KeyAsWritten | src/index.ts:40-41 | As written, a fitting key is as long as its region and starts with `$`. Otherwise the key is the ten-character text of the `Error`. |
| AsWritten.PlaceAsWritten | src/index.ts:20-43 | One pass of the first loop's body as written. An unchanged region leaves the state alone. A changed one bumps the counter, and its key is added to the map and sliced into the buffer at the region's original offset, whether the key fits or is the `Error`. It has no contract of its own; `AsWritten.AsWrittenAgrees` and `AsWritten.ShortRegionGarbles` are about it. |
| AsWritten.PlaceFrom | src/index.ts:19-44 | The first loop as written, from the n-th match on. It has no contract of its own; `AsWritten.AsWrittenAgrees` relates it to the model. |
| AsWritten.RewriteAsWritten | src/index.ts:15-46 | Both loops as written. It has no contract of its own; `AsWritten.AsWrittenAgrees` proves it equal to `Rewrite` when every key fits, and `AsWritten.ShortRegionGarbles` shows a document on which it goes wrong. |
| AsWritten.AsWrittenAgrees | src/index.ts:38-46 | When every changed region has room for its key, the loop as written gives the same text as the model, and the model reports nothing. |
| AsWritten.ShortRegionGarbles | src/index.ts:41-46 | As written, `class="x" class="flex"` with every token recognised becomes `class="tw-xtw-flexass="flex"`. The model gives `class="x" class="tw-flex"` and reports offset 7. |
| Example.PageRewritten | src/index.ts:14-48 | `<a class="flex foo"><b class="flex"></b></a>`, with `flex` recognised and prefix `tw-`, becomes `<a class="tw-flex foo"><b class="tw-flex"></b></a>`. It is written, nothing is reported, and the code as written gives the same text. |
| Example.NegationKept | src/index.ts:29-32 | `!hidden flex`, with both tokens recognised, becomes `!tw-hidden tw-flex`. |

## Left out

- File discovery and I/O are not modelled: `fast-glob`, `fs.readFileSync`, `fs.writeFileSync`, the defaults of `setup` and the call at line 52. The document text is a parameter, and the write of line 48 is the returned `write` flag.
- `await`, `Promise.all` and concurrency are not modelled. The oracle is a pure function, and `Promise.all` keeps input order, so a sequential map gives the same tokens.
- `src/loadConfig.ts` is not part of this model. That covers `create`, the engine context, `generated`, `generatedCss` and `convertToRGBA`. The oracle `generated` is the parameter `isUtility`.
- The JavaScript regular-expression engine is not modelled. The lookbehind pattern is replaced by a scan with the same results (`ClassLocator.Regions`).
- Strings are sequences of Unicode characters, while JavaScript counts UTF-16 code units. A character outside the Basic Multilingual Plane is one element here but two code units there. This changes offsets, and it changes the test of line 40-41: the model compares the region's length in characters, while `extracted.length` counts code units.
  - Rewriter.Placeholder, DocumentProcessor.KeysAllFit, DocumentProcessor.Rewrite (its `tooShort`) and AsWritten.KeyAsWritten (its `Error` branch) agree with the code only on text whose characters all lie in the Basic Multilingual Plane.
  - For example, take `class="a😀"` with the token recognised. The code sees a region of three code units and uses key `$_1`. The model sees two characters, finds no key, reports the region, and the as-written loop takes the `Error` branch.
  - The theorems about the model (`RewriteIsDirect`, `AsWrittenAgrees` and the others) hold as stated for every text. They describe the code's behaviour on text in the Basic Multilingual Plane, where characters and code units coincide.
- PlaceRegion: the `continue` of lines 21-22 is not written out. `ClassLocator.Regions` proves that every region is non-empty.
- TokenTransformer.TransformToken: the oracle is asked about the token as written, leading `!` included, because line 25 passes `className` unchanged. It is not asked about the token without its `!`.
- DocumentProcessor.RewriteIsDirect: stated only for a text and a prefix without `$`. With a `$`, a key may be found at an earlier `$` of the buffer, or the new text may contain a `$&`. `Replace` models both, but no end-to-end theorem is stated for them.
- DocumentProcessor.Rewrite: a changed region too short for its key (the `new Error('不支持')`, 'not supported', branch of line 41) is abandoned, and its offset is returned in `tooShort`. Nothing is thrown, and the other regions are rewritten as usual.
- TokenTransformer.Idempotent: idempotence is proved for one class list only, not for the whole rewrite of a document. A second run over a rewritten document can write again, even when the oracle rejects every token it has prefixed.
  - Suppose the 10th change of a document is a region of three characters. It is reported, because the key for counter 10 does not fit (`rest` is 3 - 2 = 1).
  - In a second run the nine earlier regions, already prefixed, no longer change. The short region is then the 1st change and gets key `$_1`, so it is rewritten and the document is written.
  - A prefix can also make new matches: the last token `=` recognised with prefix `class` becomes `class=`, which puts a `class="` in front of the text after the region's closing quote.

## Findings

| source | as written | input that shows it | evidently intended | confidence | as-written member | corrected member |
|---|---|---|---|---|---|---|
| src/index.ts:41-46 | When a changed region is too short for its key, the key is `new Error('不支持')`, which is neither thrown nor checked. Its string form, `Error: 不支持` (ten characters), is spliced over the region, which shifts all later offsets. It is then used as a `replace` pattern. | `class="x" class="flex"`, with every token recognised and prefix `tw-`. The result is `class="tw-xtw-flexass="flex"`: the second key lands in the wrong place, and the second class list is garbled. | The region is abandoned and reported, and the other regions are rewritten at their own offsets: `class="x" class="tw-flex"`, with offset 7 reported. | not executed | AsWritten.ShortRegionGarbles (the loop as written is AsWritten.RewriteAsWritten) | DocumentProcessor.Rewrite, with DocumentProcessor.RewriteIsDirect (the text is the direct splice of the kept changes), DocumentProcessor.PlanCovers (every change whose key fits is kept, every other change is reported) and DocumentProcessor.NoneTooShort proved about it |
