# checky, modelled in Dafny

checky is a Steem bot. It reads the blockchain's operation stream and registers every account it sees. It checks the `@mentions` in new posts and warns the author about mentions of accounts that do not exist. It also answers commands (`!ignore`, `!mode`, `!delay`, …) that users write in replies to it. This project models the bot's core as pure Dafny functions and proves properties of them:

- **the stream and the commands** (app.js):
  - the routing of each operation;
  - account registration;
  - the command pattern and the commands' effects and replies;
  - the mention check of a post and the message that lists the wrong mentions;
  - the reply queue with its retry and cooldown.
- **the three username checkers**:
  - utils/checker.js (the newest: highlighting, follow circle, tag lookups);
  - utils/username-checker.js;
  - username-checker.js (the oldest, list-based).

  For each checker the model covers the username rule (`unallowedUsernameRegex`), the edit generators, the account resolution through the ledger and the blockchain, and the suggestion ladder of `correct`.
- **the helpers** of utils/helper.js: `merge`, `trim` and `uniqCompact`.

Collections that JavaScript builds with `Set.add` or `if(!arr.includes(x)) arr.push(x)` are modelled as duplicate-free sequences in insertion order (`Helper.PushAll`). The `users` objects are maps from names to records.

The following become function parameters ("oracles"):

| oracle | stands for |
|---|---|
| `onChain` | the blockchain's answer to `lookupAccountNames` |
| `Services` | the follow circle, the trending tags and an author's tags |
| `reported` | the social-network test of `processMentions` |
| `isAuthorVariant` | the author-variation pattern of `processPost` |

Timers and network callbacks become events or explicit retry lists.

Outcomes that JavaScript expresses through exceptions and promises are explicit values:

- an exception thrown inside a command becomes `Throws`;
- a promise that never settles becomes `NeverSettles`.

Where the written behaviour is surprising, it is modelled as written and stated as a lemma:

- the reply permlink drops only the first dot of the author's name;
- `transposes` also offers the unchanged name at its last index;
- a comma inside a wrong mention is taken for a list comma;
- the oldest `correct` never settles on a single hit.

Files:

| file | models |
|---|---|
| js_text.dfy | the JavaScript string built-ins the bot uses |
| helper.dfy | utils/helper.js |
| username_rule.dfy | `unallowedUsernameRegex`, and a segment-wise reading proved equivalent to it |
| edits.dfy | the generators shared by utils/checker.js and utils/username-checker.js |
| legacy_edits.dfy | the generators of username-checker.js |
| highlight.dfy | `highlightDifferences` |
| ledger.dfy | the checkers' `users` ledger |
| legacy_ledger.dfy | the ledger functions of username-checker.js where their code differs |
| resolver.dfy | `getExisting`, `exists` and `getDiscovered` |
| ranking.dfy | `find`, the punctuation-blind match and the `occ` sort |
| search.dfy | the one-edit, then two-edit search |
| correct_checker.dfy, correct_utils.dfy, correct_legacy.dfy | the three `correct` functions |
| app_state.dfy | app.js's account table |
| command.dfy | app.js's commands |
| dispatch.dfy | the stream callback |
| mentions.dfy | `processPost` and `processMentions` |
| reply_queue.dfy | the `comments` queue and `sendMessage` |

The code of utils/checker.js and utils/username-checker.js is identical for the ledger functions and the edit generators. The rows below cite utils/checker.js for those.

username-checker.js calls the mention counter `occurrences`; the model calls it `occ` in all three checkers. Its `addMentioned` (username-checker.js:31-37), `setDelay` (username-checker.js:220-226) and `setMode` (username-checker.js:233-235) are otherwise the newer code, so the rows of `Ledger.AddMentionedSpec`, `Ledger.SetDelay` and `Ledger.SetMode` cover them. Its `addIgnored`, `removeIgnored` and `addUsers` are written differently: the `LegacyLedger` rows relate each to the newer version.

## Model

| member | source | states |
|---|---|---|
| Helper.PushAll | utils/helper.js:8-10 | adding elements "unless already present" keeps the old sequence as a prefix, holds exactly the old elements and the new ones, and adds no duplicate |
| Helper.PushAllAppend | utils/helper.js:7-11 | adding two lists one after the other is adding their concatenation |
| Helper.PushAllFresh | utils/helper.js:8-10 | when no element is already present and none repeats, every element is appended in order |
| Helper.PushAllOrder | utils/helper.js:5-13 | the result lists each element once, in the order of its first occurrence in the input |
| Helper.MergeIntoIsPushAll | utils/helper.js:7-11 | the nested loops of `merge` are one pass over the concatenated arrays |
| Helper.MergeSpec | utils/helper.js:5-13 | `merge` has no duplicates, holds exactly the elements of the arrays, and keeps first-occurrence order |
| Helper.MergeSingle | utils/helper.js:5-13 | merging one duplicate-free array gives that array back |
| Helper.MergeTwo | utils/helper.js:5-13 | merging a duplicate-free list with another appends the new elements of the second, in order |
| Helper.Values | utils/helper.js:32 | the values that are not null or undefined are exactly the present entries |
| Helper.UniqCompactIntoIsPushAll | utils/helper.js:31-33 | the loop of `uniqCompact` adds the present values "unless already present" |
| Helper.UniqCompactSpec | utils/helper.js:29-35 | `uniqCompact` has no duplicates, no null or undefined, holds every present value, and keeps first-occurrence order |
| Helper.TrailingSpaces | utils/helper.js:21 | `\s+$` matches the longest all-space suffix |
| Helper.Trim | utils/helper.js:20-22 | the trimmed string neither starts nor ends with white space, and it is the input less all-space margins |
| Helper.TrimMargins | utils/helper.js:21 | removing the leading and then the trailing white space leaves no space at either end and only space around |
| Helper.TrimIdempotent | utils/helper.js:20-22 | trimming twice is trimming once |
| JsText.ToLower | app.js:196 | `toLowerCase` keeps the length and lower-cases character by character; no upper-case ASCII letter remains |
| JsText.LeadingSpaces | app.js:57 | `^\s*` matches the longest all-space prefix |
| JsText.IndexOf | app.js:350 | the first occurrence of a character: none before it, and it is found exactly when the character occurs |
| JsText.WordLength | app.js:265 | a name in a `!ignore` list runs up to the first white space or comma |
| JsText.Tokens | app.js:265 | `split(/[\s,]+/).filter(m => m !== '')` gives non-empty pieces free of separators |
| JsText.TokensSplit | app.js:265 | a separator splits the token list of a string into those of its two sides |
| JsText.SingleToken | app.js:265 | a non-empty name without separators is one token |
| JsText.ParseInt | app.js:315 | `parseInt` of a string that is empty or starts with a letter after white space is NaN |
| JsText.ParseIntSkips | app.js:315 | `parseInt` skips leading white space |
| JsText.ParseIntOfNegative | app.js:315 | a minus sign negates the digits that follow |
| JsText.NatToStringValue | app.js:318 | the decimal text of a number reads back as that number |
| JsText.ParseIntOfIntToString | app.js:315-318 | `parseInt` of a printed integer, after white space and before a non-digit, gives that integer back |
| UsernameRule.UnallowedImpliesInvalid | utils/checker.js:7 | a name the pattern matches breaks the segment rule |
| UsernameRule.InvalidImpliesUnallowed | utils/checker.js:7 | a name without line terminators that breaks the segment rule is matched by the pattern |
| UsernameRule.UnallowedIffInvalid | utils/checker.js:7 | on names without line terminators, the pattern matches exactly when a dot-separated segment is shorter than 3, starts with a digit, dot or hyphen, ends with a dot or hyphen, holds `--`, or the name has 17 characters or more |
| Edits.DeletesSpec | utils/checker.js:138-143 | `deletes` offers one candidate per position, the name with that character removed, and nothing else |
| Edits.InsertsAtSpec | utils/checker.js:177-182 | the inner loop of `inserts` offers exactly the insertions at one position of a character of the alphabet |
| Edits.InsertsFromSpec | utils/checker.js:176-183 | from a position on, `inserts` offers the alphabet's size times the positions left, and exactly the insertions there |
| Edits.InsertsSpec | utils/checker.js:175-184 | `inserts` offers the alphabet's size × (length + 1) candidates, exactly the one-character insertions of alphabet characters |
| Edits.ReplacesAtCount | utils/checker.js:213-218 | at one position, every alphabet character except the one already there is offered |
| Edits.ReplacesAtMembers | utils/checker.js:213-218 | at one position, exactly the replacements by another alphabet character are offered |
| Edits.ReplacesFromCount | utils/checker.js:210-219 | the number of replacements offered from a position on is the alphabet's size times the positions left, less the positions whose character is in the alphabet |
| Edits.ReplacesFromMembers | utils/checker.js:210-219 | from a position on, exactly the replacements there are offered |
| Edits.ReplacesSpec | utils/checker.js:209-220 | `replaces` offers exactly the one-character replacements by a different alphabet character, never the name itself, and, for a duplicate-free alphabet holding every character of the name, one fewer than the alphabet's size per position |
| Edits.JoinSplits | utils/checker.js:116 | `split('')` then `join('')` gives the name back |
| Edits.TransposeAtSwaps | utils/checker.js:231-234 | before the last index, the copy has the two adjacent characters swapped |
| Edits.TransposeAtLast | utils/checker.js:229-234 | at the last index `splits[i+1]` is undefined and the joined copy is the name itself |
| Edits.TransposesFromSpec | utils/checker.js:229-237 | from a position on, `transposes` offers exactly the swaps of two different adjacent characters, and the unchanged name last |
| Edits.TransposesSpec | utils/checker.js:228-238 | `transposes` offers exactly the swaps of two different adjacent characters and, for a non-empty name, the name itself, last |
| Edits.CandidateSpec | utils/checker.js:113-119 | the four generators together offer exactly the names one edit away (for `transposes`, including the name itself) |
| Edits.AddEachSpec | utils/checker.js:141 | adding candidates keeps the set's order and uniqueness and adds exactly the candidates that are valid when validity is required |
| Edits.Edits1WithSpec | utils/checker.js:113-119 | `edits1` with any alphabet adds exactly the valid-if-required names one edit away to the set |
| Edits.Edits1Spec | utils/checker.js:113-119 | `edits1` adds exactly the names one edit away over the 38-character alphabet, valid ones only when required, without duplicates |
| Edits.OriginalAmongEdits1 | utils/checker.js:228-238 | a non-empty misspelt name is among its own one-edit candidates |
| Edits.Edits2IntoSpec | utils/checker.js:126-130 | the loop of `edits2` adds exactly the valid names one edit away from some first-round edit |
| Edits.Edits2Spec | utils/checker.js:126-130 | `edits2` is duplicate-free and holds exactly the valid names one edit away from some given edit |
| Edits.AlphabetFacts | utils/checker.js:114 | the alphabet has 38 characters |
| LegacyEdits.SwapOfEqualIsSame | username-checker.js:178-183 | swapping two equal adjacent characters gives the name back |
| LegacyEdits.LegacyTransposeAt | username-checker.js:178-183 | the i-th entry of `getTransposes` swaps positions i and i+1, or is the name itself at the last index |
| LegacyEdits.LegacyTransposesSound | username-checker.js:178-183 | each entry is the name itself or a swap of two different adjacent characters |
| LegacyEdits.LegacyTransposesComplete | username-checker.js:176-185 | every adjacent swap is listed |
| LegacyEdits.LegacyTransposesMember | username-checker.js:176-185 | the entries are exactly the swaps of different adjacent characters and the name itself |
| LegacyEdits.LegacyTransposesSpec | username-checker.js:176-185 | `getTransposes` has one entry per position; an equal pair yields the name itself; the members are the real swaps and the name |
| LegacyEdits.LegacyReplacesAtSpec | username-checker.js:164-166 | without the difference test, one position yields the replacements and the name itself when its own character is in the alphabet |
| LegacyEdits.LegacyReplacesFromSpec | username-checker.js:161-167 | from a position on, the alphabet's size in entries per position: the replacements, and the name itself when some character is in the alphabet |
| LegacyEdits.LegacyReplacesSpec | username-checker.js:159-169 | `getReplaces` lists the alphabet's size × length entries, the replacements and possibly the name itself |
| LegacyEdits.LegacyCandidateSpec | username-checker.js:98-105 | the four lists hold exactly the names one edit away |
| LegacyEdits.LegacyEdits1WithSpec | username-checker.js:98-105 | `_.union` of the four lists, with any alphabet, is duplicate-free and holds exactly the names one edit away |
| LegacyEdits.LegacyEdits1Spec | username-checker.js:98-105 | the oldest `edits1` has the same members as the newer one, without validity filtering |
| LegacyEdits.OriginalAmongLegacyEdits1 | username-checker.js:176-185 | a non-empty misspelt name is among its own one-edit candidates |
| LegacyEdits.ConcatEdits1Members | username-checker.js:112-117 | the concatenated lists hold exactly the names one edit away from some edit |
| LegacyEdits.LegacyEdits2Spec | username-checker.js:112-119 | `_.uniq` of the concatenation is duplicate-free and, unlike the newer `edits2`, holds invalid names too |
| Highlight.HighlightFrom | utils/checker.js:154-164 | from index i, one piece per remaining character of the correction |
| Highlight.HighlightFromChars | utils/checker.js:155-164 | every piece carries the correction's character at its place |
| Highlight.HighlightText | utils/checker.js:154-165 | the pieces spell the correction |
| Highlight.StripRender | utils/checker.js:165 | removing the `<strong>` tags from the joined pieces gives their characters back |
| Highlight.StripHighlight | utils/checker.js:151-166 | for a correction without `<`, removing the tags from the highlighted text gives the correction |
| Highlight.RenderPlain | utils/checker.js:165 | pieces without highlighting join into their plain text |
| Highlight.HighlightNoGrowth | utils/checker.js:155-164 | when the correction is not longer, a character is highlighted exactly when the lengths are equal and it differs |
| Highlight.HighlightTwoDeletes | utils/checker.js:153 | a correction two characters shorter is returned unchanged |
| Highlight.HighlightShorter | utils/checker.js:153-165 | any shorter correction is returned without tags |
| Highlight.HighlightSameLength | utils/checker.js:155-164 | for equal lengths, exactly the differing characters are highlighted |
| Highlight.FirstDiff | utils/checker.js:156 | the first index where the correction and the name differ: they agree before it |
| Highlight.HighlightAgreeing | utils/checker.js:155-164 | along a stretch where the two agree, nothing is highlighted and the scan resumes unchanged |
| Highlight.HighlightAtDiff | utils/checker.js:156-162 | for an insertion, the first differing character is highlighted and none after it |
| Highlight.GrownAfterDiff | utils/checker.js:157-159 | at the first difference the name is padded by repeating a character, after which it agrees with the correction |
| Highlight.HighlightInsertion | utils/checker.js:155-164 | for a one-character insertion, exactly one character is highlighted, at the first index where the names differ |
| Ledger.RegisterAllSpec | utils/checker.js:55-59 | the `forEach` of `addUsers` gives a fresh record to each new non-empty name and leaves the rest alone |
| Ledger.AddUsersSpec | utils/checker.js:52-60 | `addUsers` keeps every record, never adds `''`, and adds exactly the new non-empty origin and names with fresh records |
| Ledger.AddUsersIdempotent | utils/checker.js:52-60 | registering the same names twice is registering them once |
| Ledger.AddIgnoredSpec | utils/checker.js:31-33 | `addIgnored` only changes the author's `ignored`, which keeps its order, stays duplicate-free and gains exactly the new names |
| Ledger.WithoutSpec | utils/checker.js:287 | the filter keeps exactly the names not dropped, stays duplicate-free, and changes nothing when nothing is dropped |
| Ledger.WithoutAppend | utils/checker.js:287 | the filter distributes over concatenation |
| Ledger.WithoutTwice | utils/checker.js:287 | filtering twice is filtering by both lists |
| Ledger.WithoutAllDropped | utils/checker.js:287 | dropping every name leaves nothing |
| Ledger.PullEachIsWithout | app.js:273 | `_.pull` for each name in turn removes the same names as one filter |
| Ledger.RemoveIgnoredSpec | utils/checker.js:286-288 | `removeIgnored` only changes the author's `ignored`, which loses exactly the given names |
| Ledger.RemoveAfterAdd | utils/checker.js:286-288 | removing the names just ignored restores the old list less those names |
| Ledger.WithoutAfterMerge | utils/checker.js:287 | filtering out the names just merged in gives the old list less those names |
| Ledger.MentionOneSpec | utils/checker.js:41-44 | one step of `addMentioned` adds the name to the author's history once and increments that name's counter, and nothing else |
| Ledger.AddMentionedSpec | utils/checker.js:40-45 | each counter grows by the number of times the name is listed; the author's history gains the new names in order; nothing else changes |
| Ledger.SetDelay | utils/checker.js:296-302 | NaN is refused and changes nothing; a number is stored as its absolute value in that user's record only |
| Ledger.SetMode | utils/checker.js:309-311 | only that user's mode changes |
| LegacyLedger.UnionIsMerge | username-checker.js:22-24 | `_.union` of two arrays is `merge` of them: duplicate-free, holding exactly the elements of both, in order of first occurrence |
| LegacyLedger.UnionCollapses | username-checker.js:22-24 | a duplicate already in the old list is collapsed: `_.union(['a', 'a'], [])` is `['a']` |
| LegacyLedger.LegacyAddIgnoredSpec | username-checker.js:22-24 | the oldest `addIgnored` is the newer one: only the author's `ignored` changes, to the old and new names, each once |
| LegacyLedger.LegacyRemoveIgnoredSpec | username-checker.js:210-212 | `_.pullAll`, splicing out each value in turn, is the newer `filter`: exactly the given names are removed |
| LegacyLedger.LegacyAddUsersNames | username-checker.js:43-52 | called with names only, the truthiness test `!users[username]` registers the same names as the newer `hasOwnProperty` test |
| LegacyLedger.LegacyAddUsersArray | username-checker.js:43-52 | without flattening, an array argument is registered under its comma-joined text (`['ab', 'cd']` gives `"ab,cd"`, `[]` gives `""`), where the newer version registers each name |
| Resolver.Lookup | utils/checker.js:272-275 | the accounts the blockchain returns are the requested names that exist, in request order |
| Resolver.Known | utils/checker.js:266-269 | `existing` collects exactly the names with a record |
| Resolver.Unknown | utils/checker.js:266-269 | `toCheck` collects exactly the names without a record |
| Resolver.LookupAppend | utils/checker.js:271-275 | looking two lists up is looking up their concatenation |
| Resolver.RegisterAllAppend | utils/checker.js:276 | registering two lists in turn is registering their concatenation |
| Resolver.AddUsersAppend | utils/checker.js:276 | the same, for `addUsers(null, …)` |
| Resolver.KnownWhenNoneUnknown | utils/checker.js:270 | when nothing needs checking, every name is known |
| Resolver.DiscoverFromSpec | utils/checker.js:271-277 | the chunked lookup loop, whatever the chunk size, appends and registers the accounts among the remaining names |
| Resolver.GetExistingSpec | utils/checker.js:263-279 | `getExisting` returns the known names, then the unknown names that exist, and registers those |
| Resolver.GetExistingMembers | utils/checker.js:263-279 | a name is returned exactly when it is known or exists; new records are fresh and only for accounts among the names |
| Resolver.GetExistingAllKnown | utils/checker.js:270 | with every name known, the names come back unchanged and nothing is registered |
| Resolver.Exists | utils/checker.js:254-256 | `exists` holds exactly for a known name or an account, and registers a newly found account |
| Resolver.GetDiscoveredSpec | utils/username-checker.js:245-254 | the retried lookup settles exactly when some call succeeds, with the chunk's accounts, registered |
| Resolver.GatherFromSpec | utils/username-checker.js:224-236 | once settled, the parallel chunk lookups give what the sequential loop gives; they settle when every chunk has a successful call |
| Resolver.GetExistingRetryingSpec | utils/username-checker.js:215-238 | the retrying `getExisting`, once settled, agrees with the sequential one, and settles when every chunk eventually succeeds |
| Resolver.SingleNameSettles | utils/username-checker.js:206-208 | looking one name up settles once the first chunk has a successful call |
| Resolver.ExistsRetrying | utils/username-checker.js:206-208 | the retrying `exists`, once settled, agrees with `exists` of utils/checker.js |
| Ranking.StripPunct | utils/checker.js:74 | `replace(/[\d.-]/g, '')` leaves no digit, dot or hyphen |
| Ranking.StripPunctAppend | utils/checker.js:74 | the global replace works piece by piece: stripping a concatenation is concatenating the stripped pieces |
| Ranking.StripPunctChar | utils/checker.js:74 | one character is removed exactly when it is a digit, a dot or a hyphen, and kept otherwise |
| Ranking.StripPunctPlain | utils/checker.js:74 | a name with no digit, dot or hyphen is left unchanged |
| Ranking.WithAuthor | utils/checker.js:72 | an author not yet mentioned is put at index 0 in front of the unchanged mentions; an author already mentioned leaves the list as it is |
| Ranking.AuthorFoundFirst | utils/checker.js:72-75 | an author not among the mentions who passes the test is what `find` returns |
| Ranking.FindIndex | utils/checker.js:75-78 | `find` stops at the first element that passes the test |
| Ranking.FindSpec | utils/checker.js:75-79 | `find` gives nothing exactly when no element passes, and otherwise the first that passes |
| Ranking.FirstMaxIndex | utils/checker.js:99 | the first element of highest count |
| Ranking.InsertDesc | utils/checker.js:99 | an insertion into the sorted list adds exactly that element |
| Ranking.SortDesc | utils/checker.js:99 | the sort is a permutation of its input |
| Ranking.InsertDescSorted | utils/checker.js:99 | insertion keeps the list sorted by descending count |
| Ranking.SortDescSorted | utils/checker.js:99 | the sort orders by descending count |
| Ranking.SortDescHead | utils/checker.js:99 | the stable sort's first element is the first name of highest count |
| Search.FirstRoundMembers | utils/checker.js:81-83 | the first round returns exactly the known or existing names one edit away |
| Search.SecondRoundMembersWith | utils/checker.js:84-88 | the second round, with any alphabet, returns exactly the valid known or existing names two edits away |
| Search.SecondRoundMembers | utils/checker.js:84-88 | the second round returns exactly the valid known or existing names two edits away |
| Search.HitsSpec | utils/checker.js:81-88 | the hits are the one-edit accounts when there are some, otherwise the valid two-edit accounts |
| Search.HitsLedger | utils/checker.js:81-88 | the search keeps every record and registers only accounts, with fresh records |
| CheckerCorrect.ChooseNamesHit | utils/checker.js:89-99 | with several hits, any suggestion is one of the hits, highlighted |
| CheckerCorrect.ChoosePreferred | utils/checker.js:92-93 | the first hit mentioned in the post or earlier by the author wins |
| CheckerCorrect.ChooseCircle | utils/checker.js:95-97 | otherwise the first hit in the author's follow circle wins |
| CheckerCorrect.ChooseMostMentioned | utils/checker.js:99 | otherwise, with every hit in the ledger, the first hit of highest mention count wins |
| CheckerCorrect.FallbackLedger | utils/checker.js:100-104 | the fallback steps only register accounts |
| CheckerCorrect.GuessLedger | utils/checker.js:81-104 | the edit search and the fallback only register accounts |
| CheckerCorrect.CorrectLedger | utils/checker.js:70-105 | `correct` only registers accounts, with fresh records, and keeps every record |
| CheckerCorrect.FallbackSpec | utils/checker.js:100-104 | without hits, `the` + name is suggested when it exists, else the tag when the word is a tag, else nothing |
| CheckerCorrect.HitNamed | utils/checker.js:81-88 | every hit is an account one edit away, or two edits away when none is one edit away |
| CheckerCorrect.GuessFound | utils/checker.js:89-99 | with hits, a suggestion is given and it is one of them, highlighted |
| CheckerCorrect.GuessNotFound | utils/checker.js:83-88 | with no hits, there is no account one or two edits away, and the fallback decides on a ledger that agrees on which names exist |
| CheckerCorrect.GuessSpec | utils/checker.js:81-104 | the edit search and the fallback give nothing exactly when no step finds anything, and otherwise the first step's suggestion |
| CheckerCorrect.CorrectLadder | utils/checker.js:70-105 | `correct` gives null exactly when no variant, edit, `the` + name or tag applies; a suggestion comes from the first step that applies, in the source's order; when the first matching mention (author in front) is not empty, it is the highlighted suggestion and the ledger is unchanged |
| CheckerCorrect.AuthorWins | utils/checker.js:72-79 | a non-empty author not among the other mentions who matches the misspelt name is suggested, ahead of any matching mention |
| UtilsCorrect.ChooseNamesHit | utils/username-checker.js:83-89 | with several hits, any suggestion is one of the hits |
| UtilsCorrect.CorrectLadder | utils/username-checker.js:63-96 | the same ladder as utils/checker.js without the follow circle, highlighting or tag lookups: null exactly when no step applies; the first step's suggestion otherwise, the first matching mention for the variant step |
| UtilsCorrect.VariantFirst | utils/username-checker.js:64-73 | when the first matching mention (author in front) is not empty, it is the suggestion and the ledger is unchanged |
| UtilsCorrect.AuthorWins | utils/username-checker.js:64-73 | a non-empty author not among the other mentions who matches the misspelt name is suggested |
| UtilsCorrect.HitsExist | utils/username-checker.js:74-82 | every hit is a known name or an account |
| UtilsCorrect.StripMarkedName | utils/checker.js:79 | removing the tags from a highlighted suggestion gives the plain suggestion of utils/username-checker.js |
| UtilsCorrect.StripMarkedThe | utils/checker.js:100 | the same for the `the` + name suggestion |
| UtilsCorrect.ChooseAgree | utils/username-checker.js:83-89 | with an empty follow circle, both checkers choose the same hit |
| UtilsCorrect.FallbackAgree | utils/username-checker.js:90-94 | when the word is not a remote tag, both fallbacks agree |
| UtilsCorrect.GuessAgree | utils/username-checker.js:74-94 | under the same conditions, both edit searches and fallbacks agree |
| UtilsCorrect.CheckerAgreesWithUtils | utils/username-checker.js:63-96 | with no follow circle and no remote tag, both `correct` functions register the same accounts and give the same suggestion once the tags are removed; where the newer one rejects, the older one never settles |
| LegacyCorrect.KnownNoDup | username-checker.js:76 | filtering a duplicate-free list keeps it duplicate-free |
| LegacyCorrect.SecondRoundWith | username-checker.js:79 | the known names among the second-round edits are exactly those two edits away |
| LegacyCorrect.SecondRound | username-checker.js:79 | the same over the 38-character alphabet |
| LegacyCorrect.HitsSpec | username-checker.js:74-80 | the hits are duplicate-free: the known names one edit away when there are some, otherwise two edits away |
| LegacyCorrect.SingleHit | username-checker.js:82 | exactly one hit means a non-empty list of one distinct name |
| LegacyCorrect.GuessShape | username-checker.js:81-89 | no hits gives null; a single hit never settles; a suggestion is a hit |
| LegacyCorrect.GuessReplyHit | username-checker.js:83-87 | a suggestion from several hits is a hit |
| LegacyCorrect.NoHits | username-checker.js:74-80 | there are no hits exactly when no known name is one or two edits away |
| LegacyCorrect.HitKinds | username-checker.js:74-80 | every hit is known, one edit away or two when none is one edit away |
| LegacyCorrect.CorrectLadder | username-checker.js:62-91 | null exactly when no step applies; never settles exactly on a single hit; any suggestion comes from the first step that applies; when the first matching mention (author in front) is not empty, it is the suggestion |
| LegacyCorrect.AuthorWins | username-checker.js:62-72 | a non-empty author not among the other mentions who matches the misspelt name is suggested |
| LegacyCorrect.CorrectMostMentioned | username-checker.js:86-87 | with no preferred hit, the first hit of highest `occurrences` wins |
| AppState.Update | app.js:290 | assigning one record keeps the names and every other record |
| AppState.AddUsersSpec | app.js:378-382 | `addUsers` keeps every record and adds a fresh one for each field that is not `''` (an absent field registers `"undefined"`) |
| AppState.AddUsersIdempotent | app.js:378-382 | registering the same fields twice is registering them once |
| Command.Param | app.js:57 | the parameter group, when present, is non-empty and on one line |
| Command.ParseCommand | app.js:57 | a recognised command name is non-empty ASCII letters; its parameter is non-empty and on one line |
| Command.ParseCommandSome | app.js:57-58 | a body is a command exactly when, after white space, it has `!` and a letter |
| Command.ParseShape | app.js:57 | the name is the whole run of letters after `!` |
| Command.ParamWritten | app.js:57 | white space and then a line of text give that line as the parameter |
| Command.ParseCommandWritten | app.js:57 | a command written with a parameter is read back as that name and parameter |
| Command.ParseCommandBare | app.js:57 | a name followed by neither a letter nor white space has no parameter |
| Command.SplitNames | app.js:265 | one name per token of the list |
| Command.NormalizePlain | app.js:265 | lower-case names without `@` are kept as they are |
| Command.SplitJoin | app.js:265 | names joined by any run of separators are read back as those names |
| Command.SplitJoinSpace | app.js:265 | names joined by spaces are read back as those names |
| Command.IgnoreCommand | app.js:263-269 | `!ignore` changes at most the author's record and always queues one reply |
| Command.UnignoreCommand | app.js:270-276 | `!unignore` changes at most the author's record and always queues one reply |
| Command.DelayCommand | app.js:312-322 | `!delay` changes at most the author's record |
| Command.SwitchMode | app.js:281-306 | `!mode` changes at most the author's record |
| Command.ProcessFrame | app.js:261-330 | no command changes another account's record or the set of accounts |
| Command.IgnoreDispatch | app.js:262-263 | `ignore` is routed to the ignore handler |
| Command.UnignoreDispatch | app.js:270 | `unignore` is routed to the unignore handler |
| Command.DelayDispatch | app.js:312-313 | `delay` is routed to the delay handler |
| Command.IgnoreCommandSpec | app.js:263-267 | `!ignore` keeps the author's mode and delay; their `ignored` keeps its order, stays duplicate-free and gains exactly the listed names; the reply lists the names |
| Command.UnignoreCommandSpec | app.js:270-274 | `!unignore` removes exactly the listed names from `ignored`, keeps the rest in order, and lists the names in the reply |
| Command.UnignoreAfterIgnore | app.js:263-276 | `!unignore` with the list of an `!ignore` restores `ignored` less those names |
| Command.IgnoreWritten | app.js:264-267 | `!ignore a b c` adds exactly those names |
| Command.IgnoreNames | app.js:264-267 | the ignore handler given a space-separated list adds exactly its names |
| Command.MissingParameter | app.js:263-321 | without a parameter, the four commands that need one change nothing and reply with their own "not specified" message |
| Command.Shortcut | app.js:278-280 | `!on` and `!off` behave as `!mode on` and `!mode off` |
| Command.SwitchModeSpec | app.js:283-304 | a known mode word, after trimming, sets only the author's mode and confirms it; an unknown one throws |
| Command.ModeWords | app.js:286-301 | `on`, `regular` and `normal` mean regular; `advanced` and `plus` mean advanced; `off` means off |
| Command.DelayCommandSpec | app.js:314-320 | NaN changes nothing and replies so; a number sets only the delay, to its absolute value, and the reply echoes the signed number |
| Command.DelayWritten | app.js:315-317 | `!delay n` sets the delay to the absolute value of n |
| Command.StateSpec | app.js:307-311 | `!state` changes nothing and describes the author's record |
| Command.TrimPlain | app.js:285 | a word without surrounding white space is its own trim |
| Command.ProcessThrows | app.js:302-303 | a command throws exactly when it is a mode command whose trimmed parameter is no mode word |
| Dispatch.FieldsOf | app.js:69-156 | one field per named property of the operation |
| Dispatch.RegisterPairSpec | app.js:53 | the author and the parent author get fresh records if new and not `''`; nothing else changes |
| Dispatch.CommandRouting | app.js:55-58 | a reply to the bot is never mention-checked: without a command, only registration; with one, the command's effect and reply |
| Dispatch.CommandFault | app.js:53-58 | processing a reply to the bot fails exactly when it holds a mode command with an unknown mode word; the accounts `addUsers` registered before the exception stay |
| Dispatch.PostRouting | app.js:59-61 | any other comment only registers, and is checked exactly when it is a post whose author is not off, or the author is advanced |
| Dispatch.DownvoteSpec | app.js:63-68 | a downvote of the bot sets only the voter's mode to off, after registration |
| Dispatch.OtherVote | app.js:63-67 | any other vote only registers the voter and the voted author |
| Dispatch.OtherRegisters | app.js:69-156 | every other operation only registers its named accounts with fresh records |
| Dispatch.CommandFrame | app.js:55-58 | a command changes no record but the author's, and no set of names, whether it completes or throws |
| Dispatch.StepFrame | app.js:45-157 | an operation, even one that throws, keeps every account, changes no record but the acting account's, and adds nothing but fresh records, except for the acting account's |
| Mentions.TrailingMarks | app.js:196 | `[?¿!¡.,;:-]+$` matches the longest run of marks at the end |
| Mentions.NormalizeMentionSpec | app.js:196 | a normalised mention is the input less its trailing marks, lower-cased, and does not end with a mark |
| Mentions.NormalizeIdempotent | app.js:196 | normalising twice is normalising once |
| Mentions.Filter | app.js:196-203 | a filter keeps exactly the elements that pass |
| Mentions.FilterKeepsRank | app.js:196-203 | filtering keeps the order |
| Mentions.Normalized | app.js:196 | one normalised name per raw mention |
| Mentions.CandidatesRank | app.js:196-203 | the candidates keep the order of first appearance |
| Mentions.CandidatesMembers | app.js:196-203 | the candidates are exactly the normalised mentions longer than two characters that have no record, are not author variants and are not ignored |
| Mentions.CandidatesSpec | app.js:196-203 | the candidates are duplicate-free, those names exactly, in first-appearance order |
| Mentions.ScanRegisters | app.js:232-239 | the loop registers the mentions that exist, in order |
| Mentions.ScanReports | app.js:232-239 | the loop reports `@` + each reported mention that does not exist, in order |
| Mentions.ScanSpec | app.js:232-239 | both halves of the loop together |
| Mentions.ProcessMentions | app.js:230-239 | the loop, as a method with its invariants, computes the registered accounts and the wrong mentions |
| Mentions.RegistersKnown | app.js:238 | existing mentions get fresh records; nothing else is added or changed |
| Mentions.WrongAreReported | app.js:233-237 | a mention is reported exactly when it is wrong, as `@` + the name |
| Mentions.ProcessMentionsSpec | app.js:220-253 | `processMentions` registers exactly the existing mentions and reports exactly the missing, reported ones |
| Mentions.Commas | app.js:244 | every wrong mention gets a comma appended |
| Mentions.ReplaceAppendedComma | app.js:245-246 | replacing the first comma of a name without commas replaces the appended one |
| Mentions.JoinPieces | app.js:247 | the placed pieces, joined with spaces, form the English list |
| Mentions.PlacedLast | app.js:245 | the last name loses its comma |
| Mentions.PlacedSecondLast | app.js:246 | the second-to-last name's comma becomes ` and` |
| Mentions.PlacedFront | app.js:244 | the other names keep their comma |
| Mentions.PlacedPieces | app.js:243-246 | without commas in names, the placed list is the English pieces |
| Mentions.ListingIsEnglish | app.js:243-248 | without commas in names, the message lists them as `@a`, `@a and @b`, `@a, @b and @c` |
| Mentions.CommaInName | app.js:244-247 | a comma inside a name is taken for the list's own: `@x,y` and `@z` become `@x andy, @z` |
| Mentions.CommaInNamePlaced | app.js:244-246 | the pieces of that example |
| Mentions.CommaDropped | app.js:245 | the last name's appended comma is dropped |
| Mentions.CommaBecomesAnd | app.js:246 | the first comma, inside the name, is the one replaced |
| Mentions.Report | app.js:241-250 | a reply is queued exactly when some mention is wrong, on the checked post |
| Mentions.PostPlanSpec | app.js:185-192 | a new post is checked exactly once, now or after the delay in minutes; an edited post never; the delayed call always checks |
| Mentions.CheckPostReports | app.js:192-250 | a check replies exactly when some normalised mention is new, long enough, not the author's variant, not ignored, missing and reported; the reply goes to the post |
| Mentions.CheckPostRegisters | app.js:192-239 | a check only adds fresh records for existing mentioned names |
| Mentions.ReportedNames | app.js:196-237 | every reported name is a normalised mention that is new, not ignored, missing and reported |
| ReplyQueue.NextConserves | app.js:25-32 | one event keeps the entries held, in order, and appends the one it pushes |
| ReplyQueue.RunConserves | app.js:23-32 | the entries sent, in flight and waiting are, in order, the entries pushed |
| ReplyQueue.SentInOrder | app.js:29-30 | replies go out first in, first out |
| ReplyQueue.SingleFlight | app.js:26-30 | a broadcast starts only from the running poll, with the first waiting entry, and never while another is in flight |
| ReplyQueue.RetrySame | app.js:351-357 | a failed broadcast is retried with the same entry |
| ReplyQueue.PollingResumes | app.js:358-369 | polling resumes only after the cooldown, which only follows a success |
| ReplyQueue.BroadcastSpec | app.js:339-350 | the reply answers the entry's comment, under its title, with its message and the footer |
| ReplyQueue.PermlinkPlain | app.js:350 | a dot-free author appears whole in the reply permlink |
| ReplyQueue.PermlinkSecondDot | app.js:350 | only the first dot is dropped: `a.b.c` answering `p` gives `re-ab.c-p` |

## Left out

- Persistence (`data/users.json`, its 5-second writer, `init`) and console logging: file I/O and timers.
- The remote API (`steem.api`, `steemer`): lookups, the follow circle and tag queries are oracle parameters. Node rotation on errors (`request_nodes`, `stream_nodes`) is left out: only the retry it leads to matters to the model.
- The stream's error path (restart with the next node): network only.
- `processPost`'s `getContent` call and its retries: the content is an input of `Mentions.CheckPost`.
- `processMentions`'s retries after a failed `lookupAccountNames`: a retry repeats the same call, so only the successful answer is modelled.
- `Mentions.CheckPost`: the social-network test over the ~600 surrounding characters (app.js:235-237) is the oracle `reported`. Regular-expression matching over the body is not modelled.
- `Mentions.Candidates`: the author-variation pattern (app.js:198-201) is the oracle `isAuthorVariant`.
- `Mentions.CheckPost`: a `JSON.parse` failure or a missing `users` list is one `None` input; the exception is swallowed either way.
- JavaScript prototype keys (`users['constructor']` and so on): `hasOwnProperty` and truthiness are modelled as map membership.
- `JsText.ToLower`: lower-cases ASCII letters only; Unicode case mapping is not modelled.
- String lengths and the `.` of the patterns count Unicode characters (a Dafny `string` is a sequence of scalar values), while JavaScript's `.length` and a pattern without the `u` flag count UTF-16 code units. A character outside the Basic Multilingual Plane counts once here and twice in the source, so the model can differ from the source on such names: `Mentions.Candidates` drops the mention `a😀` as too short (app.js:196) where the source keeps it, and the 17-character rule of `UsernameRule` and the lengths in `Highlight` count such characters once. Steem account names are ASCII, so every real account is counted alike.
- `Ledger.AddUsers` takes the names already flattened: the newer `addUsers` unwraps an array passed as its first name argument (utils/checker.js:54), and that unwrapping is not modelled. The oldest version does not unwrap, which `LegacyLedger.LegacyAddUsers` models.
- `JsText.ParseInt`: integers are unbounded; precision loss above 2^53 is not modelled.
- `UsernameRule.InvalidImpliesUnallowed`: assumes a name without line terminators, because `.` in the pattern does not match them.
- `Ledger.AddIgnored`, `Ledger.RemoveIgnored`, `Ledger.AddMentioned`, `Ledger.MentionOne`, `Ledger.SetDelay`, `Ledger.SetMode`, `LegacyLedger.LegacyAddIgnored`, `LegacyLedger.LegacyRemoveIgnored`: require the records the source dereferences. A missing one makes the source throw a TypeError, which is not modelled for these functions.
- `otherMentions.unshift(author)` mutates the caller's array. The model returns the extended list instead and does not model the caller seeing the change.
- `Resolver.GetDiscoveredSpec` and `Resolver.GatherFromSpec`: network failures are finite lists of attempt outcomes. An endless run of failures is the promise that never settles.
- The posting key and the transport of `steem.broadcast.comment`: only its arguments are modelled (`ReplyQueue.BroadcastOf`).
- The one-second poll and the 19-second cooldown are events, not durations. `ReplyQueue.Next` does not model elapsed time.
- Operation kinds that app.js's switch does not name are ignored by the source and not modelled.
- utils/steemer.js, utils/upvoter.js, utils/converter.js and config.js are not part of this model.
