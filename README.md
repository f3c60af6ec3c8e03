# Award-identifier extraction, modelled in Dafny

This project models the deterministic core of `award_id.py` from the
iris-utils repository. That module reads the funding statement of a
patent or paper and extracts two things from it:

- the grant or award identifiers it cites, such as `NSF+CHE-1234567`
  or `R01-GM123456`;
- the codes of the US federal agencies it names, such as `NIH`, `DOE`,
  `DARPA` or `USAF`.

It also models two normalisation helpers for organisations' legal names
from `nlp.py`.

The modules follow the stages of the extractor:

| module | file | what it covers |
|---|---|---|
| `Text` | `text.dfy` | The character classes of Python's `str` methods and of the regular-expression classes `\w`, `\s` and `\b` on ASCII text. The string operations `str.replace`, `str.split`, `str.join`, `strip` and `lower`. |
| `Tokens` | `tokens.dfy` | `removePunctuation`, `isYear`, `isAcronym` and `includeWord`. The regular-expression tokenizer. The list filters that flag candidate tokens. |
| `Merger` | `merge.dfy` | `addIsolated`: a flagged token absorbs its neighbours into `a+b` chains, with the backward "X and Y" fan-out. The two values of its `forward` flag are written as two recursive walks. |
| `Rewrites` | `rewrite.dfy` | The literal rewrites of the statement: HTML entities, spacing after punctuation, `--` and dashes, whitespace collapse. |
| `Symbols` | `symbols.dfy` | The rewrites after punctuation removal: ` & ` to ` and `, the remaining `&` to `, `, `A/B` to `A B`, and `#` to a space. |
| `Modifier` | `modifier.dfy` | `award_ids_modifier`: a list such as `NS1234, 5678 and 9012` becomes `NS+1234, NS+5678, NS+9012`. |
| `Dedup` | `dedup.dfy` | `removeShorter`, the extractor's own containment loop, and Python's stable sort and string order. |
| `Assembly` | `assembly.dfy` | The extractor's last stage: seeds, merging, stripping, filtering, deduplication, the year flag and the `|`-joined award identifier. |
| `Agency` | `agency.dfy` | `findAgency`: text normalisation, the agency and institute tables, the military services, the NIH fallback, the `NRSA`→`NIH` fold and the ARPA-E/DARPA rule. |
| `LegalName` | `legal.dfy` | `standardize_legal_type` and `clean_string` from `nlp.py`. |

Where the source updates state step by step, the model is imperative:

- `htmlTOunicode`, `removeShorter`, the extractor's collection loops, its
  in-place removal loop and `findAgency`'s appends are methods with loops;
- each method is proved against a specification function.

The rest of the code consists of expressions and recursion, and is
modelled as functions with lemmas.

The `&` rewrite at award_id.py:698 is modelled as the code is written.
Its first negative lookahead is evaluated at the `&` itself, where
`[\s\(]` can never match, so it never fails. The left-hand context
therefore has no effect, and only the text to the right of the `&`
decides whether it is replaced.

## Model

| member | source | states |
|---|---|---|
| Tokens.RemovePunctuationKeeps | award_id.py:18-25 | The result is a subsequence of the word. Every character outside the deleted punctuation keeps its count, and no deleted punctuation is left. |
| Tokens.YearRange | award_id.py:51-61 | A year is four digits, optionally followed by a newline, whose value lies in 1900..2099 and does not exceed the current year. |
| Tokens.YearRecognised | award_id.py:51-61 | Conversely, every such four-digit value is a year, with or without a final newline. |
| Tokens.AcronymShape | award_id.py:63-72 | An acronym has an upper-case letter and no lower-case letter or digit. |
| Tokens.ListedAcronymRecognised | award_id.py:63-72 | A listed acronym in capitals is recognised, alone or hyphenated after another capital word. |
| Tokens.IncludeWordCases | award_id.py:40-49 | A token with a digit is always included. A token is rejected exactly when, after punctuation removal, it is not a block of fewer than three capitals, has no digit, and its basic form is a dictionary word. |
| Tokens.Tokenize | award_id.py:605 | Every token is a non-empty run of characters of `[-/&.,;:\w]`. |
| Tokens.TokenizeKeepsTokenChars | award_id.py:605 | The tokens, concatenated, are the text with exactly its separator characters deleted. |
| Tokens.TokenizeSplitsAtSeparator | award_id.py:709 | A separator splits the text into two independently tokenized halves. |
| Tokens.TokenizeRun | award_id.py:709 | A non-empty run of token characters is exactly one token, so runs are maximal. |
| Tokens.FilterTokens | award_id.py:716-727 | The flagged tokens are exactly the input tokens that pass every filter. |
| Tokens.FlaggedSingleCharIsDigit | award_id.py:716-727 | A flagged one-character token is a digit. |
| Merger.AddIsolated | award_id.py:74-135 | The seed stays alone exactly in the three boundary, stop-character and non-absorbable cases. A forward walk never fans out. A merged chain starts with `seed+` going forward and ends with `+seed` going backward. A fan-out's second string ends with `+tokens[i+2]`. |
| Merger.AddBackward | award_id.py:74-133 | The backward walk: the seed stays alone exactly in the first-token, stop-character and non-absorbable cases. Otherwise its chain ends with `+seed`, and a fan-out's second string ends with `+tokens[i+2]`. |
| Merger.AddForward | award_id.py:74-133 | The forward walk: the seed stays alone exactly in the last-token, stop-character and non-absorbable cases. Otherwise its chain starts with `seed+`, and it never fans out. |
| Merger.BackwardChainIsRun | award_id.py:74-133 | A backward chain is the run of consecutive tokens ending at the seed, joined by `+`. The run starts at the nearest token at or before the seed where the backward walk stops, and every token after that start up to the seed was absorbed. |
| Merger.ForwardChainIsRun | award_id.py:74-133 | A forward chain is the run of consecutive tokens starting at the seed, joined by `+`. The run ends at the nearest token at or after the seed where the forward walk stops, and every token from the seed up to that end was absorbed. |
| Merger.FanOutExactly | award_id.py:113-133 | A backward call returns two strings exactly when the "X and Y" conditions on the following three tokens hold. |
| Merger.MergedChars | award_id.py:74-135 | Over tokenizer output, merging only adds `+`, so candidates hold token characters and `+` only. |
| Rewrites.HtmlToUnicode | award_id.py:313-338 | The loop applies the entity table in order. It never lengthens the text, and text without `&` is returned unchanged. |
| Rewrites.TableNeverGrows | award_id.py:313-338 | Applying any entity table never lengthens the text. |
| Rewrites.TableNeedsAmpersand | award_id.py:313-338 | Text without `&` is unchanged by the entity table. |
| Rewrites.HyphenRunHalved | award_id.py:613 | A run of n hyphens becomes ceil(n/2) hyphens in the single left-to-right pass. |
| Rewrites.ThreeHyphensBecomeTwo | award_id.py:613 | `---` becomes `--`, so the pass is not a fixed point. |
| Rewrites.DashesBecomeHyphens | award_id.py:615-616 | The two replace passes turn every en or em dash into a hyphen, character by character. |
| Rewrites.CollapseRun | award_id.py:618 | A non-empty whitespace run between non-whitespace text becomes exactly one space, and the text on either side is collapsed on its own. |
| Rewrites.CollapseIdempotent | award_id.py:618 | Collapsing twice is the same as collapsing once. |
| Rewrites.InsertSpaceOnlyInPairs | award_id.py:597-600 | The result is the text with single spaces inserted after some characters, and each of them follows the first character of a tight pair. |
| Rewrites.InsertSpaceUnchanged | award_id.py:597-600 | A text without a tight pair is returned unchanged. |
| Rewrites.InsertSpaceSeparates | award_id.py:597-600 | Afterwards no tight pair of the rewritten kind is left. |
| Rewrites.SpacingSeparatesAll | award_id.py:597-600 | After the four passes, none of the four tight pairs is left. |
| Rewrites.SpacingLengthens | award_id.py:597 | `;a` becomes `; a`, so this stage lengthens its input. |
| Symbols.SpacedAmpersandOnce | award_id.py:697 | A single ` & ` between texts without `&` becomes ` and `, and nothing else changes. |
| Symbols.SpacedAmpersandBecomesAnd | award_id.py:697-698 | After both `&` rewrites in order, `a & b` reads `a and b`, so the spaced `&` is never turned into a comma. |
| Symbols.AmpersandRightContextOnly | award_id.py:698 | The decision for each `&` depends only on the text to its right. |
| Symbols.AmpersandExamples | award_id.py:698 | `R&D ` keeps its `&`; `x&y` becomes `x, y`. |
| Symbols.AmpersandIdempotent | award_id.py:698 | Applying the rewrite twice is the same as applying it once. |
| Symbols.AcronymSurvives | award_id.py:698 | A kept `&` is still followed by an acronym and its closer. |
| Symbols.SlashPairReplaced | award_id.py:702 | A slash between two capital runs is replaced by a space when no word character stands before the first run or after the second, and the previous text does not end in a slash. The text on either side is rewritten on its own. |
| Symbols.SlashBetweenCapitals | award_id.py:702 | Every character the rewrite changes is a slash between two capitals. |
| Symbols.ChainedSlashes | award_id.py:702 | In `A/B/C` only the first slash is replaced, because the match consumes the second run. |
| Symbols.HashToSpace | award_id.py:705 | Every `#` becomes a space, and nothing else changes. |
| Modifier.ParseListNumbers | award_id.py:340-354 | Every number the pattern captures has 4 to 7 digits. |
| Modifier.ModifierRoundTrip | award_id.py:340-354 | Splitting the rendered list on `, ` and dropping the `XY+` prefixes gives back the numbers in order. |
| Modifier.ParseListSound | award_id.py:340-354 | Conversely, whatever the pattern matches is such a list: the text it consumed is the list of the prefix and numbers it returns, with some opener, closer and optional comma. |
| Modifier.ParseListText | award_id.py:340-354 | A list `XYn1, n2, … and nk` at the start of the text is recognised whole, with its prefix and all its numbers. This holds for any whitespace or `(` before it, any whitespace or `)` after it, and with or without a comma before ` and `. |
| Modifier.ModifyRewritesList | award_id.py:340-354 | A list at the front of the text, in any of those layouts, is replaced by its rendering, and the scan resumes right after its closing character. |
| Modifier.ModifyNeedsDigits | award_id.py:340-354 | Text without digits is unchanged. |
| Modifier.SplitJoin | award_id.py:340-354 | Splitting on `, ` inverts joining with `, ` for items without commas. |
| Dedup.RemoveShorter | award_id.py:263-270 | The result is strictly increasing in string order, and its elements are exactly the input's elements that no other element contains. |
| Dedup.Covered | award_id.py:263-270 | Every dropped element is a substring of some survivor. |
| Dedup.MaximalIsAntichain | award_id.py:263-270 | No survivor is a substring of another survivor. |
| Dedup.SortBySorted | award_id.py:264 | The stable sort returns a sorted permutation of its input. |
| Dedup.LexTotal | award_id.py:269 | Python's string order relates every pair of strings. |
| Dedup.LexTransitive | award_id.py:269 | Python's string order is transitive. |
| Dedup.LexAntisymmetric | award_id.py:269 | Two strings that are each at most the other are equal. |
| Dedup.SortedDistinct | award_id.py:269 | Sorting a list without duplicates in string order makes it strictly increasing. |
| Dedup.IncreasingUnique | award_id.py:269 | Two strictly increasing lists with the same elements are equal. |
| Dedup.RemoveFirst | award_id.py:268 | `list.remove` deletes the first occurrence of the element and keeps the rest in order. |
| Dedup.MaximalBetween | award_id.py:766-774 | Any removal that keeps every maximal element, and adds nothing, has the same maximal elements. |
| Dedup.DropContained | award_id.py:766-769 | The in-place loop keeps every maximal candidate and adds nothing. |
| Assembly.Enumerate | award_id.py:755 | Iterating a set visits each element exactly once, in an unspecified order. |
| Assembly.Occurrences | award_id.py:732-735 | The indices returned are exactly the positions holding the flagged token. |
| Assembly.CollectSeeds | award_id.py:732-735 | The seed indices are exactly the positions of the flagged tokens. |
| Assembly.MergeAll | award_id.py:736-753 | The appended candidates are the concatenation of the results of the `addIsolated` calls, in call order. |
| Assembly.FlattenMembers | award_id.py:736-753 | A string is appended exactly when one of the calls returns it. |
| Assembly.AddedIsMerged | award_id.py:736-753 | The strings both merge loops append to `s_add` are exactly the merge results, over all seeds and both directions. |
| Assembly.FilterCandidates | award_id.py:759-760 | A candidate is kept exactly when it is longer than four characters without punctuation and has a digit. |
| Assembly.FilterStripped | award_id.py:756-760 | The stripped and filtered candidates are a function of the candidate set alone. |
| Assembly.SurvivingCandidates | award_id.py:732-760 | The candidate list has exactly the surviving elements. |
| Assembly.DedupResult | award_id.py:766-774 | Whatever the in-place loop leaves, `removeShorter` returns the increasing list of maximal candidates. |
| Assembly.DroppedEmpty | award_id.py:771-772 | The list is empty after the loop exactly when it was empty before. |
| Assembly.JoinAwardIds | award_id.py:766-775 | The award identifier is the `|`-joined, increasing list of maximal survivors. |
| Assembly.ExtractAwardId | award_id.py:732-775 | The extractor's award identifier. The year flag is set exactly when a surviving candidate is a year. |
| Assembly.SurvivorShape | award_id.py:756-760 | Every survivor has no `.,;:`, more than four non-punctuation characters, and a digit. |
| Assembly.PotentialYearNeverSet | award_id.py:764 | Over tokenizer output, no survivor is a year, so the year flag stays false. |
| Assembly.AwardIdEmpty | award_id.py:771-775 | The award identifier is empty exactly when no candidate survives. |
| Assembly.SplitJoined | award_id.py:775 | Splitting on `|` inverts joining with `|` for identifiers without `|`. |
| Assembly.AwardIdSplits | award_id.py:771-775 | Splitting the award identifier on `|` gives back the increasing list of maximal survivors. |
| Agency.WordBetweenSpaces | award_id.py:190-193 | A word with spaces around it is found by the whole-word test. |
| Agency.WordIsNotGlued | award_id.py:190-193 | A found word has no word character on either side. |
| Agency.BlankPunctuation | award_id.py:204-205 | The loop over the punctuation characters blanks every punctuation character except `-`. |
| Agency.NormalizedShape | award_id.py:203-206 | After normalisation the text has no punctuation except `-`, no whitespace but single spaces, and no two adjacent spaces. |
| Agency.Normalize | award_id.py:203-206 | The three steps compute the normalised text. |
| Agency.DropDarpa | award_id.py:213 | The rows kept are exactly those whose acronym is not `DARPA`. |
| Agency.MatchAgencies | award_id.py:218-225 | The codes appended are exactly the acronyms of the table rows the statement names. |
| Agency.MatchInstitutes | award_id.py:236-239 | `NIH` is added exactly when some institute of the table is named. |
| Agency.AddServices | award_id.py:226-231 | `USA`, `USN` and `USAF` are added exactly when Army, Navy or Air Force are named as whole words. |
| Agency.AddNih | award_id.py:232-239 | `NIH` is added only when it is not yet found and the NIH fallback applies. |
| Agency.CollectCodes | award_id.py:218-239 | The codes collected before the fold are exactly the specification's set. |
| Agency.FoldRemovesNrsa | award_id.py:240-241 | After the fold no code contains `NRSA`. |
| Agency.FindAgency | award_id.py:186-253 | The result is the `|`-join of a list without duplicates whose elements are exactly the agency codes of the statement. |
| Agency.ArpaEIsArpa | award_id.py:242-251 | Every ARPA-E match is also an ARPA match. |
| Agency.ArpaEExamples | award_id.py:242-251 | `ARPAE` and `ARPA  energy` are ARPA-E; bare `ARPA` is ARPA but not ARPA-E. |
| Agency.NrsaNeverReported | award_id.py:240-253 | `NRSA` is never among the codes reported. |
| Agency.DarpaExactly | award_id.py:213-251 | `DARPA` is reported exactly when the ARPA pattern matches and the ARPA-E pattern does not. |
| Agency.NihReported | award_id.py:232-241 | `NIH` is reported when the NIH fallback applies, and whenever `NRSA` was found. |
| Agency.ServicesReported | award_id.py:226-231 | A whole-word Army, Navy or Air Force always yields `USA`, `USN` or `USAF`. |
| Agency.TableRowReported | award_id.py:218-225 | A named agency row whose acronym has no `NRSA` is reported. |
| Agency.CodesHaveNoBar | award_id.py:209-253 | No reported code contains `|`. |
| Agency.ResultSplits | award_id.py:252-253 | Splitting the result on `|` gives back the codes in the order they were joined. |
| LegalName.LegalTypeWordRules | nlp.py:26-32 | A last word starting with `CORP`, `INC` or `COMP` becomes `CORPORATION`, `INCORPORATED` or `COMPANY`. Any other word is kept. At most one rule fires. |
| LegalName.LegalTypeWordIdempotent | nlp.py:26-32 | Each target word is a fixed point of the rewrite. |
| LegalName.StandardizeLegalType | nlp.py:24-35 | The result ends with a space and the rewritten last word. |
| LegalName.KeepsAllButLastWord | nlp.py:24-35 | Everything before the last space is kept verbatim and in order. |
| LegalName.OneWord | nlp.py:24-35 | A one-word input becomes a space followed by the rewritten word. |
| LegalName.StandardizeIdempotent | nlp.py:24-35 | Standardising twice is the same as standardising once. |
| LegalName.CleanStringShape | nlp.py:134-144 | The output has none of `(`, `)`, `-`, `,`, and no space when spaces are removed. It never grows, and it keeps the remaining characters in order. |
| LegalName.CleanStringCounts | nlp.py:134-144 | Every character outside `(`, `)`, `-` and `,` keeps its count. With spaces removed the count is taken from the input, otherwise from the stripped input. |
| Text.StripSlice | nlp.py:138 | `strip` returns a slice of its input. Everything cut off on either side is whitespace, and the slice starts and ends with a non-whitespace character. |
| LegalName.CleanStringIdempotent | nlp.py:134-144 | With spaces removed, cleaning twice is the same as cleaning once. |
| LegalName.CleanStringNotIdempotentKeepingSpaces | nlp.py:134-144 | Without space removal, `( a` becomes ` a` and then `a`, because `strip` runs before the brackets are deleted. |

## Left out

- The preprocessor and `findCity` are not part of this model. They consist of file and network I/O, PDF and HTML table parsing, and a process pool.
- The regular-expression excisions are not part of this model: `excludeLaws`, `removeDates`, `removeZip`, `removeTitle`, `removeFile`, the boilerplate substitutions at award_id.py:627-690, and the deletion of letter-only words at award_id.py:713. Their meaning rests on full backtracking regex semantics. The token stages downstream take the text those steps leave as their input.
- Character classes are ASCII. Python's Unicode `\w`, `\s`, `isupper`, `isalpha` and `lower` are not modelled beyond ASCII. Whitespace is the ASCII set: space, `\t`, `\n`, `\r`, `\x0b`, `\x0c` and `\x1c` to `\x1f`. Non-ASCII spaces such as `\x85` and `\xa0` are left out.
- NLTK (the English word list and the lemmatiser) is not modelled. It appears as an injected `Lexicon` value and a set of dictionary words.
- The pandas tables in `findAgency` are sequences of `Row(acronym, title)` values. The in-place lowercasing of the caller's `TITLE` column (award_id.py:210, 214) is not modelled, because only the lowered copy affects the result. Rows are read positionally, as acronym then title.
- `datetime.now()` is not modelled: the current year is a parameter.
- Python's set iteration order is left open. `Assembly.Enumerate` and `Agency.FindAgency` hold for every order.
- `list.sort` is modelled by a stable insertion sort. It returns the same list as Python's stable sort.
- Assembly.ExtractAwardId: the year flag is stated for arbitrary tokens. That it is always false is proved only for tokenizer output, in `Assembly.PotentialYearNeverSet`.
- Dedup.DropContained: stated as "keeps every maximal candidate and adds nothing", not as the exact list it leaves. The loop removes from `s` while indexing a copy, so later items shift, and some contained items can remain. `removeShorter` removes those afterwards (`Assembly.DedupResult`).
- Text.ReplaceAll: requires a non-empty pattern. Every `str.replace` in the core uses a literal non-empty pattern.
- The pd.Series result, `explode_award_ids`, the other functions of `nlp.py`, `src/crossref.py`, `src/parse_args.py` and `checksum.py` are not part of this model. They are pandas plumbing, NLTK-driven regex loops, a network client, a CLI and file hashing.
