# Dessertly in Dafny

A model of Dessertly's core: an iOS app that lists the desserts of TheMealDB and shows one dessert's recipe. The model covers:

- the detail record's decoding: the required fields, the reformatted instructions, and the numbered ingredient scan;
- `reformatText`;
- the service's URLs and what its two fetch operations do with the outcome of the request;
- the error enum and its messages;
- the process-wide error slot;
- the two view models: loading, the search filter, and the ingredient sort.

Modules:

- `Results`: `Option` and `Result`.
- `Strings`: the Swift and Foundation text operations the core uses, on `seq<char>`. These are `lowercased`, `capitalized`, `trimmingCharacters(in: .whitespacesAndNewlines)`, `contains`, `<` on strings, and `"\(n)"` for an index.
- `ServiceErrors`: `DessertServiceError`, its `localizedDescription`, and the errors the service really throws (`URLError` codes, decoding failures, anything else).
- `ErrorHandling`: the `ErrorHandler` actor, as a class with one field.
- `DessertDetails`: `DessertDetail`, `reformatText`, and `init(from:)` on one raw JSON record.
  - The record is a `map<string, Option<string>>`; `None` stands for JSON `null`.
  - The scan loop is a `while true` method, proved to compute `Ingredients(fields)`.
  - `Ingredients(fields)` collects indices 1 up to the first index the guard rejects.
  - That index exists and lies within the record, because different indices have different keys.
- `Desserts`: the list entry `Dessert`.
- `DessertServices`: `makeURL`, `fetchDesserts` and `fetchDessertDetail`, with the network and the response-level JSON parse given as functions of the URL.
- `DetailViewModel`, `ListViewModel`: the two actors as classes, plus `sortIngredients` and the search filter as functions.

The singletons (`ErrorHandler.shared`, `DessertService.shared`) are passed in explicitly. The memberwise `init` of `DessertDetail` is the datatype's constructor.

Behaviour that follows the code where the documented intent differs:

- A failed load keeps the previously loaded data and overwrites the error message; a successful load does not clear `errorMessage`.
- The ingredient scan stops at an ingredient that is empty after `capitalized`. It does not trim the ingredient, so one of only spaces is kept.
- The HTTP response object is ignored: a non-success status is not checked.
- `loadDesserts` sets `filteredDesserts` to every loaded dessert, whatever the current query.
- The fetch operations throw `URLError(.badURL)` and `URLError(.badServerResponse)`, never `DessertServiceError`. An error that is thrown inside the `do` block is reported a second time by the `catch`; the final state of the error slot is the same.

## Model

| member | source | states |
|---|---|---|
| Strings.Decimal | Dessertly/Models/DessertDetail.swift:60-61 | the rendering of an index is a non-empty run of decimal digits, at least two of them from 10 on |
| Strings.DecimalInjective | Dessertly/Models/DessertDetail.swift:60-61 | different indices are rendered differently, so every index has its own key |
| Strings.LowerChar | Dessertly/ViewModels/DessertsListViewModel.swift:43 | no capital is left; the result is a lower-case letter exactly when the input is a letter |
| Strings.UpperChar | Dessertly/Models/DessertDetail.swift:64 | no lower-case letter is left; the result is a capital exactly when the input is a letter |
| Strings.Lowercased | Dessertly/ViewModels/DessertsListViewModel.swift:43 | same length, every character mapped to lower case |
| Strings.LowercasedIdempotent | Dessertly/ViewModels/DessertsListViewModel.swift:43 | lowercasing twice is lowercasing once |
| Strings.Capitalized | Dessertly/Models/DessertDetail.swift:64 | same length; a character starts a word, and is upper case, unless the last character before it that is not case-ignorable is a cased letter; every other character is lower case |
| Strings.InWordCaseless | Dessertly/Models/DessertDetail.swift:64 | where words start does not depend on the case of the letters |
| Strings.CapitalizedCaselessInjective | Dessertly/Models/DessertDetail.swift:64 | two capitalised strings that lowercase alike are the same string |
| Strings.IsWhitespaceOrNewline | Dessertly/Models/DessertDetail.swift:96 | `CharacterSet.whitespacesAndNewlines`: the Unicode space separators, line and paragraph separators, tab, U+000A to U+000D and U+0085; the characters the trims remove |
| Strings.TrimStart | Dessertly/Models/DessertDetail.swift:96 | the result is a suffix that does not start with whitespace, and only whitespace was removed |
| Strings.TrimEnd | Dessertly/Models/DessertDetail.swift:96 | the result is a prefix that does not end with whitespace, and only whitespace was removed |
| Strings.Trimmed | Dessertly/Models/DessertDetail.swift:96 | the trimmed text neither starts nor ends with whitespace; Strings.TrimmedIsInfix and Strings.TrimmedChars say what is kept |
| Strings.TrimmedIsInfix | Dessertly/Models/DessertDetail.swift:96 | trimming gives a contiguous piece of the input |
| Strings.TrimmedChars | Dessertly/Models/DessertDetail.swift:96 | trimming introduces no character |
| Strings.TrimEndAppend | Dessertly/Models/DessertDetail.swift:96 | trailing whitespace is removed only from the part after the last non-whitespace character |
| Strings.TrimEndKeepsPrefix | Dessertly/Models/DessertDetail.swift:96 | a leading part that ends in a visible character survives trimming the end |
| Strings.TrimStartNoop | Dessertly/Models/DessertDetail.swift:96 | a string starting with a non-whitespace character keeps its start |
| Strings.Less | Dessertly/Services/DessertService.swift:33 | `<` on strings, character by character; that it is a strict total order is stated by Strings.LessIrreflexive, Strings.LessTransitive, Strings.LessTotal and Strings.LessAsymmetric |
| Strings.LessIrreflexive | Dessertly/Services/DessertService.swift:33 | no name sorts before itself |
| Strings.LessTransitive | Dessertly/Services/DessertService.swift:33 | string `<` is transitive |
| Strings.LessTotal | Dessertly/Services/DessertService.swift:33 | of two different names one sorts first |
| Strings.LessAsymmetric | Dessertly/Services/DessertService.swift:33 | two names never sort before each other |
| Strings.NotLessTransitive | Dessertly/Services/DessertService.swift:33 | "not smaller" is transitive, which sortedness by `<` relies on |
| Strings.LessCommonPrefix | Dessertly/Services/DessertService.swift:33 | a common prefix does not change how two names compare |
| Strings.Contains | Dessertly/ViewModels/DessertsListViewModel.swift:43 | `contains`; Strings.ContainsIff states it holds exactly when the pattern occurs at some position |
| Strings.ContainsIff | Dessertly/ViewModels/DessertsListViewModel.swift:43 | `contains` holds exactly when the pattern occurs at some position |
| Strings.MissingFirstCharNotContained | Dessertly/ViewModels/DessertsListViewModel.swift:43 | a string lacking the pattern's first character does not contain it |
| Strings.LowercasedMisses | Dessertly/ViewModels/DessertsListViewModel.swift:43 | a letter absent in both cases is absent after lowercasing |
| ServiceErrors.LocalizedDescription | Dessertly/Models/DessertServiceError.swift:17-28 | each of the four cases has its fixed, non-empty message |
| ServiceErrors.KindOfMessage | Dessertly/Models/DessertServiceError.swift:17-28 | a case recovered from a message is described by that message |
| ServiceErrors.DescriptionDeterminesKind | Dessertly/Models/DessertServiceError.swift:17-28 | the message of a case leads back to that case |
| ServiceErrors.MessagesDistinct | Dessertly/Models/DessertServiceError.swift:17-28 | different cases have different messages |
| ErrorHandling.ErrorHandler.constructor | Dessertly/Services/ErrorHandler.swift:14-16 | a new handler holds no error |
| ErrorHandling.ErrorHandler.Report | Dessertly/Services/ErrorHandler.swift:20-22 | the reported error replaces the stored one |
| ErrorHandling.ErrorHandler.GetCurrentError | Dessertly/Services/ErrorHandler.swift:26-28 | returns the stored error and changes nothing |
| ErrorHandling.ErrorHandler.ClearError | Dessertly/Services/ErrorHandler.swift:31-33 | the slot is empty afterwards |
| ErrorHandling.LastReportWins | Dessertly/Services/ErrorHandler.swift:20-33 | after two reports the reader sees the second, twice alike; after clearing, nothing |
| DessertDetails.ReplaceCrLf | Dessertly/Models/DessertDetail.swift:84 | the replacement never lengthens the text; DessertDetails.ReplaceCrLfPair, DessertDetails.ReplaceCrLfLoneCr and DessertDetails.ReplaceCrLfKeepsPrefix state what it does to a pair, to a lone `\r` and to other text |
| DessertDetails.ReplaceCrLfOnlyDropsCr | Dessertly/Models/DessertDetail.swift:84 | the replacement only deletes carriage returns: with every `\r` removed, input and output agree |
| DessertDetails.ReplaceCrLfOnePass | Dessertly/Models/DessertDetail.swift:84 | one left-to-right pass: `\r\r\n` becomes `\r\n` |
| DessertDetails.ReplaceCrLfUnchanged | Dessertly/Models/DessertDetail.swift:84 | text without `\r` is left unchanged |
| DessertDetails.ReplaceCrLfCons | Dessertly/Models/DessertDetail.swift:84 | a leading character other than `\r` is kept in front |
| DessertDetails.ReplaceCrLfKeepsPrefix | Dessertly/Models/DessertDetail.swift:84 | a leading part without `\r` passes through unchanged |
| DessertDetails.DropCr | Dessertly/Models/DessertDetail.swift:84 | the text with its carriage returns deleted, against which DessertDetails.ReplaceCrLfOnlyDropsCr measures the replacement |
| DessertDetails.ReplaceCr | Dessertly/Models/DessertDetail.swift:85 | every `\r` becomes `\n`; DessertDetails.NormalizeLineBreaks states that none is left and that text without `\r` is unchanged |
| DessertDetails.NormalizeLineBreaks | Dessertly/Models/DessertDetail.swift:83-85 | no `\r` is left, and text without `\r` is unchanged; DessertDetails.NormalizeCrLf and DessertDetails.NormalizeLoneCr state that each line break becomes one `\n` |
| DessertDetails.ReplaceCrAppend | Dessertly/Models/DessertDetail.swift:85 | the second replacement distributes over concatenation |
| DessertDetails.ReplaceCrUnchanged | Dessertly/Models/DessertDetail.swift:85 | text without `\r` passes through the second replacement unchanged |
| DessertDetails.ReplaceCrLfPair | Dessertly/Models/DessertDetail.swift:84 | a leading `\r\n` becomes one `\n` and the rest is replaced in turn |
| DessertDetails.ReplaceCrLfLoneCr | Dessertly/Models/DessertDetail.swift:84 | a leading `\r` that no `\n` follows is kept, and the rest is replaced in turn |
| DessertDetails.NormalizeCrLf | Dessertly/Models/DessertDetail.swift:83-85 | the first `\r\n` pair after a `\r`-free part becomes exactly one `\n` |
| DessertDetails.NormalizeLoneCr | Dessertly/Models/DessertDetail.swift:83-85 | the first lone `\r` after a `\r`-free part becomes exactly one `\n` |
| DessertDetails.NormalizeTwoLines | Dessertly/Models/DessertDetail.swift:84-85 | a blank line written with `\r\n` pairs becomes `\n\n` |
| DessertDetails.LineLength | Dessertly/Models/DessertDetail.swift:86 | the first line runs up to, and not past, the first `\n` |
| DessertDetails.SplitLines | Dessertly/Models/DessertDetail.swift:86 | every piece is non-empty and holds no `\n` |
| DessertDetails.SplitLinesChars | Dessertly/Models/DessertDetail.swift:86 | splitting introduces no character |
| DessertDetails.SplitLinesAppend | Dessertly/Models/DessertDetail.swift:86 | splitting `a + "\n" + b` gives the pieces of `a` followed by those of `b` |
| DessertDetails.SplitLinesSingle | Dessertly/Models/DessertDetail.swift:86 | a non-empty line without `\n` is one piece |
| DessertDetails.SplitJoinRoundTrip | Dessertly/Models/DessertDetail.swift:86-95 | splitting pieces joined with a blank line gives the pieces back |
| DessertDetails.JoinSnoc | Dessertly/Models/DessertDetail.swift:94-95 | joining with one more piece appends the separator and the piece |
| DessertDetails.JoinStartsWith | Dessertly/Models/DessertDetail.swift:94-95 | the joined text starts with the first piece |
| DessertDetails.JoinChars | Dessertly/Models/DessertDetail.swift:94-95 | every character of the joined text comes from the separator or a piece |
| DessertDetails.Join | Dessertly/Models/DessertDetail.swift:94-95 | `joined(separator:)`; DessertDetails.SplitJoinRoundTrip, DessertDetails.JoinSnoc, DessertDetails.JoinStartsWith and DessertDetails.JoinChars state what it builds |
| DessertDetails.Numbered | Dessertly/Models/DessertDetail.swift:89-91 | paragraph k is `"k+1. "` and line k, as DessertDetails.ParagraphShape and DessertDetails.FirstParagraphStart state |
| DessertDetails.Lines | Dessertly/Models/DessertDetail.swift:84-86 | the non-empty lines after normalising line breaks; DessertDetails.LinesOfTwo is an instance |
| DessertDetails.Paragraphs | Dessertly/Models/DessertDetail.swift:84-91 | the numbered lines; DessertDetails.ParagraphHasNoCarriageReturn and DessertDetails.ParagraphKeepsItsDot state what each holds |
| DessertDetails.ParagraphShape | Dessertly/Models/DessertDetail.swift:89-91 | paragraph k is `"k+1. "` followed by the k-th non-empty line, and holds no `\n` |
| DessertDetails.ParagraphsSeparatedByBlankLine | Dessertly/Models/DessertDetail.swift:84-95 | the joined paragraphs split back into exactly the numbered paragraphs |
| DessertDetails.ParagraphHasNoCarriageReturn | Dessertly/Models/DessertDetail.swift:84-91 | no paragraph holds `\r` |
| DessertDetails.TrimmedParagraphsHaveNoCarriageReturn | Dessertly/Models/DessertDetail.swift:82-97 | the joined, trimmed paragraphs hold no `\r` |
| DessertDetails.ReformatText | Dessertly/Models/DessertDetail.swift:82-97 | the reformatted text holds no `\r` and neither starts nor ends with whitespace; DessertDetails.ReformatTextStartsWithOne, DessertDetails.ReformatTextEmptyIff, DessertDetails.ReformatTextTrimsOnlyLastParagraph and DessertDetails.ReformatTwoParagraphs state its shape |
| DessertDetails.FirstParagraphStart | Dessertly/Models/DessertDetail.swift:89-91 | the first paragraph starts with "1." and holds more after it |
| DessertDetails.ParagraphKeepsItsDot | Dessertly/Models/DessertDetail.swift:89-91 | every paragraph holds a character that is not whitespace |
| DessertDetails.ReformatTextTrimsOnlyEnd | Dessertly/Models/DessertDetail.swift:94-96 | with at least one line, trimming removes nothing from the front |
| DessertDetails.TrimEndJoin | Dessertly/Models/DessertDetail.swift:94-96 | trimming the end of joined paragraphs trims only the last one |
| DessertDetails.TrimEndJoinLast | Dessertly/Models/DessertDetail.swift:94-96 | the same, for a list split at its last paragraph |
| DessertDetails.ReformatTextTrimsOnlyLastParagraph | Dessertly/Models/DessertDetail.swift:82-97 | trimming touches only the end of the last paragraph |
| DessertDetails.ReformatTextStartsWithOne | Dessertly/Models/DessertDetail.swift:82-97 | a text with a non-empty line is reformatted to start with "1." |
| DessertDetails.ReformatTextEmptyIff | Dessertly/Models/DessertDetail.swift:82-97 | the result is empty exactly when the text has no non-empty line |
| DessertDetails.LinesOfTwo | Dessertly/Models/DessertDetail.swift:84-86 | two lines around a blank `\r\n` line yield exactly those two lines |
| DessertDetails.ParagraphsOfTwo | Dessertly/Models/DessertDetail.swift:84-91 | those two lines are numbered 1 and 2 |
| DessertDetails.ReformatTwoParagraphs | Dessertly/Models/DessertDetail.swift:82-97 | `a\r\n\r\nb` becomes `1. a`, a blank line, then `2. b` |
| DessertDetails.IfPresent | Dessertly/Models/DessertDetail.swift:47-51 | an absent key and `null` both give nothing; DessertDetails.Required is the throwing counterpart and agrees with it |
| DessertDetails.Required | Dessertly/Models/DessertDetail.swift:43-53 | decoding a required field succeeds exactly when it is present and not null, with its value |
| DessertDetails.IngredientKey | Dessertly/Models/DessertDetail.swift:60 | `strIngredient` and the index; DessertDetails.IngredientKeyInjective states different indices give different keys |
| DessertDetails.MeasureKey | Dessertly/Models/DessertDetail.swift:61 | `strMeasure` and the index; DessertDetails.MeasureKeyInjective states different indices give different keys |
| DessertDetails.MeasureKeyInjective | Dessertly/Models/DessertDetail.swift:61 | different indices have different measure keys |
| DessertDetails.PairAt | Dessertly/Models/DessertDetail.swift:64-70 | the guard lets an index through exactly when the ingredient is present and non-empty after `capitalized` and the measure is present and non-empty; the pair is the capitalised ingredient and the measure |
| DessertDetails.Collect | Dessertly/Models/DessertDetail.swift:72 | the dictionary after storing the accepted pairs of the first n indices; DessertDetails.CollectNonEmpty, DessertDetails.CollectComesFromIndices and DessertDetails.CollectLastWins state what it holds |
| DessertDetails.IngredientKeyInjective | Dessertly/Models/DessertDetail.swift:60 | different indices have different ingredient keys |
| DessertDetails.LaterKeyIsNew | Dessertly/Models/DessertDetail.swift:60 | the key of a later index is not among the keys of earlier ones |
| DessertDetails.IngredientKeysUpToCard | Dessertly/Models/DessertDetail.swift:60 | the first n indices have n distinct ingredient keys |
| DessertDetails.IngredientKeysUpToWithin | Dessertly/Models/DessertDetail.swift:59-74 | when every key `strIngredient1` to `strIngredient<n>` lies in a given set, the set of those keys is a subset of it |
| DessertDetails.FirstGapFrom | Dessertly/Models/DessertDetail.swift:59-74 | the search passes only indices the guard accepts and stops at one it rejects |
| DessertDetails.GapWithinRecord | Dessertly/Models/DessertDetail.swift:59-74 | the guard rejects some index no later than one past the record's size |
| DessertDetails.Gap | Dessertly/Models/DessertDetail.swift:59-70 | the first index the guard rejects: every earlier index is accepted |
| DessertDetails.ParseIngredients | Dessertly/Models/DessertDetail.swift:55-76 | the loop ends and builds the dictionary of indices 1 up to the first rejected one |
| DessertDetails.CollectNonEmpty | Dessertly/Models/DessertDetail.swift:64-72 | no stored ingredient or measure is empty |
| DessertDetails.Ingredients | Dessertly/Models/DessertDetail.swift:55-76 | no decoded ingredient or measure is empty; DessertDetails.IngredientsComeFromScannedIndices, DessertDetails.IngredientsLaterIndexWins and DessertDetails.IngredientsIgnoreFieldsPastGap state what it holds |
| DessertDetails.CollectComesFromIndices | Dessertly/Models/DessertDetail.swift:59-74 | every stored pair is the accepted pair of some scanned index |
| DessertDetails.IngredientsComeFromScannedIndices | Dessertly/Models/DessertDetail.swift:59-74 | every decoded pair comes from an index before the first rejected one |
| DessertDetails.CollectLastWins | Dessertly/Models/DessertDetail.swift:72 | a pair whose name no later index repeats keeps its measure |
| DessertDetails.IngredientsLaterIndexWins | Dessertly/Models/DessertDetail.swift:72 | for a repeated name, the measure of the last index wins |
| DessertDetails.CollectAgree | Dessertly/Models/DessertDetail.swift:59-74 | records that agree on the first n pairs collect the same dictionary |
| DessertDetails.IngredientsIgnoreFieldsPastGap | Dessertly/Models/DessertDetail.swift:59-74 | fields after the first rejected index change neither where the scan stops nor what it finds |
| DessertDetails.DecodeDetail | Dessertly/Models/DessertDetail.swift:41-77 | `init(from:)` step by step computes `Decode` |
| DessertDetails.Decode | Dessertly/Models/DessertDetail.swift:41-77 | decoding fails exactly when `idMeal`, `strMeal` or `strMealThumb` is missing or null, naming the first in that order; otherwise the detail holds the record's fields, the reformatted instructions (absent when absent) and the scanned ingredients |
| DessertDetails.CapitalizedExample | Dessertly/Models/DessertDetail.swift:64 | "brown SUGAR" is stored as "Brown Sugar" |
| DessertDetails.CapitalizedAfterHyphen | Dessertly/Models/DessertDetail.swift:64 | a hyphen ends a word: "stir-fry" is stored as "Stir-Fry" |
| DessertDetails.CapitalizedAfterDigit | Dessertly/Models/DessertDetail.swift:64 | a digit ends a word: "3rd" is stored as "3Rd" |
| DessertDetails.CapitalizedAcrossApostrophe | Dessertly/Models/DessertDetail.swift:64 | an apostrophe does not end a word: "don't" is stored as "Don't" |
| DessertDetails.CapitalizedSugar | Dessertly/Models/DessertDetail.swift:64 | "sugar" is stored as "Sugar" |
| DessertDetails.ScanStopsAtEmptyIngredient | Dessertly/Models/DessertDetail.swift:59-74 | an empty second ingredient ends the scan: only "Sugar" is kept, and the third pair is never read |
| DessertServices.MakeUrl | Dessertly/Services/DessertService.swift:79-87 | a URL exists exactly when the components resolve; it has the https scheme, TheMealDB host, base path plus endpoint, and the query items |
| DessertServices.ListUrl | Dessertly/Services/DessertService.swift:25 | the components `makeURL` builds for `filter.php` with `c=Dessert` |
| DessertServices.DetailUrl | Dessertly/Services/DessertService.swift:46 | the components `makeURL` builds for `lookup.php` with `i` set to the id |
| DessertServices.DetailUrlInjective | Dessertly/Services/DessertService.swift:46 | different ids are looked up at different URLs |
| DessertServices.InsertByName | Dessertly/Services/DessertService.swift:33 | inserting into a list sorted by name keeps it sorted and adds exactly the one dessert |
| DessertServices.SortByName | Dessertly/Services/DessertService.swift:33 | a permutation of the desserts with no name followed by a smaller one |
| DessertServices.SortByNameKeepsSorted | Dessertly/Services/DessertService.swift:33 | the model's stable insertion sort leaves a list already in name order as it is; for distinct names this is what any sort gives |
| DessertServices.SortByNameSwaps | Dessertly/Services/DessertService.swift:33 | two desserts in reverse name order are swapped |
| DessertServices.MockNamesOrdered | DessertlyTests/MockDessertService.swift:25-28 | "Mock Dessert 1" sorts before "Mock Dessert 2" |
| DessertServices.SortByNameExample | Dessertly/Services/DessertService.swift:33 | "Mock Dessert 2", "Mock Dessert 1" come back as 1, 2 |
| DessertServices.FetchDesserts | Dessertly/Services/DessertService.swift:23-38 | an unresolved URL fails with `badURL`, a failed load passes its error through, a loaded list comes back sorted by name; every failure is in the error slot and a success leaves it alone |
| DessertServices.DecodeMeals | Dessertly/Services/DessertService.swift:53 | decoding the `meals` array fails exactly when a record fails, with the error of the first record that fails; otherwise each record is decoded in place |
| DessertServices.FetchDessertDetail | Dessertly/Services/DessertService.swift:44-72 | `badURL`, the load error, the decoding error, or `badServerResponse` for an empty `meals`; otherwise the first record's detail; every failure is in the error slot and a success leaves it alone |
| DetailViewModel.DessertDetailViewModel.constructor | Dessertly/ViewModels/DessertDetailViewModel.swift:13-15 | nothing loaded, loading, no error message |
| DetailViewModel.DessertDetailViewModel.HasError | Dessertly/ViewModels/DessertDetailViewModel.swift:44-46 | an error message is stored; DetailViewModel.DessertDetailViewModel.LoadDessertDetail states when it turns true |
| DetailViewModel.DessertDetailViewModel.LoadDessertDetail | Dessertly/ViewModels/DessertDetailViewModel.swift:21-32 | not loading afterwards; success stores the detail; failure keeps the old detail, stores the error's description and reports the error; `hasError` turns true exactly on failure and never turns false |
| DetailViewModel.Before | Dessertly/ViewModels/DessertDetailViewModel.swift:37-40 | the `sorted` closure: by lowercased name; the model adds a tie-break by the raw name for names that lowercase alike, which the source lacks; DetailViewModel.BeforeAsymmetric, DetailViewModel.BeforeTransitive and DetailViewModel.BeforeTotal make it a strict total order |
| DetailViewModel.BeforeAsymmetric | Dessertly/ViewModels/DessertDetailViewModel.swift:37-41 | the sort order never puts two names before each other |
| DetailViewModel.BeforeTransitive | Dessertly/ViewModels/DessertDetailViewModel.swift:37-41 | the sort order is transitive |
| DetailViewModel.BeforeTotal | Dessertly/ViewModels/DessertDetailViewModel.swift:37-41 | of two different names one comes first |
| DetailViewModel.FirstExists | Dessertly/ViewModels/DessertDetailViewModel.swift:37-41 | a non-empty set of names has a name that comes first |
| DetailViewModel.FirstUnique | Dessertly/ViewModels/DessertDetailViewModel.swift:37-41 | that name is unique |
| DetailViewModel.First | Dessertly/ViewModels/DessertDetailViewModel.swift:37-41 | picks the name that comes first in the requested direction |
| DetailViewModel.SortNamesStep | Dessertly/ViewModels/DessertDetailViewModel.swift:37-41 | the first name followed by a sorted listing of the rest lists all names in order |
| DetailViewModel.SortedCons | Dessertly/ViewModels/DessertDetailViewModel.swift:37-41 | that listing is sorted |
| DetailViewModel.SortNames | Dessertly/ViewModels/DessertDetailViewModel.swift:34-42 | every name once, strictly in the requested direction |
| DetailViewModel.EntriesOf | Dessertly/ViewModels/DessertDetailViewModel.swift:35-36 | each name paired with its measure; DetailViewModel.EntriesOfListed, DetailViewModel.EntriesOfSorted and DetailViewModel.EntriesOfReverse state what that keeps |
| DetailViewModel.EntriesOfListed | Dessertly/ViewModels/DessertDetailViewModel.swift:35-36 | pairing every name with its measure gives every pair of the dictionary once |
| DetailViewModel.EntriesOfSorted | Dessertly/ViewModels/DessertDetailViewModel.swift:35-41 | pairing keeps the order of the names |
| DetailViewModel.SortIngredients | Dessertly/ViewModels/DessertDetailViewModel.swift:34-42 | every pair of the dictionary exactly once with its measure, strictly in the requested direction |
| DetailViewModel.SortAscendingLowercasedNondecreasing | Dessertly/ViewModels/DessertDetailViewModel.swift:38-39 | ascending, no lowercased name is smaller than an earlier one |
| DetailViewModel.SortDescendingLowercasedNonincreasing | Dessertly/ViewModels/DessertDetailViewModel.swift:38-40 | descending, no lowercased name is greater than an earlier one |
| DetailViewModel.SortIngredientsDistinct | Dessertly/ViewModels/DessertDetailViewModel.swift:35-36 | no ingredient is listed twice |
| DetailViewModel.DecodedNamesDifferCaselessly | Dessertly/Models/DessertDetail.swift:64-72 | two different ingredient names of a decoded record never lowercase alike |
| DetailViewModel.DecodedIngredientsSortWithoutTies | Dessertly/ViewModels/DessertDetailViewModel.swift:37-41 | for a decoded detail each listed name is strictly `<` (descending, `>`) every later one when lowercased |
| DetailViewModel.SortedListingUnique | Dessertly/ViewModels/DessertDetailViewModel.swift:37-41 | only one listing of the names is sorted in a given direction |
| DetailViewModel.SortedHeadsAgree | Dessertly/ViewModels/DessertDetailViewModel.swift:37-41 | two sorted listings of the same names start with the same name |
| DetailViewModel.SortNamesDescendingIsReversed | Dessertly/ViewModels/DessertDetailViewModel.swift:37-41 | the names sorted descending are the ascending ones backwards |
| DetailViewModel.EntriesOfReverse | Dessertly/ViewModels/DessertDetailViewModel.swift:35-36 | pairing names read backwards gives the pairs backwards |
| DetailViewModel.SortDescendingIsReversedAscending | Dessertly/ViewModels/DessertDetailViewModel.swift:34-42 | the descending listing is the ascending listing backwards |
| DetailViewModel.NamesOfSortIngredients | Dessertly/ViewModels/DessertDetailViewModel.swift:35-36 | the names of the listing are the sorted names of the dictionary |
| DetailViewModel.MockNamesOrder | DessertlyTests/MockDessertService.swift:42 | Eggs, Flour and Sugar come in that order |
| DetailViewModel.ThreeListed | DessertlyTests/MockDessertService.swift:42 | three names in order are listed sorted forwards, and backwards when descending |
| DetailViewModel.SortThreeAscending | Dessertly/ViewModels/DessertDetailViewModel.swift:37-41 | three names in order sort ascending to that order |
| DetailViewModel.SortThreeDescending | Dessertly/ViewModels/DessertDetailViewModel.swift:37-41 | and descending to the reverse |
| DetailViewModel.MockSortedNames | DessertlyTests/DessertDetailViewModelTests.swift:57-86 | the mock names sort to Eggs, Flour, Sugar, and to Sugar, Flour, Eggs descending |
| DetailViewModel.MockIngredientsSorted | DessertlyTests/DessertDetailViewModelTests.swift:57-86 | both listings of the mock ingredients, as the two sort tests expect |
| DetailViewModel.LoadFromMock | DessertlyTests/DessertDetailViewModelTests.swift:29-54 | the mock detail arrives named "Mock Dessert"; with a throwing mock the error slot holds an error |
| DetailViewModel.SortMockIngredients | DessertlyTests/DessertDetailViewModelTests.swift:57-86 | loading the mock detail and sorting its ingredients gives the expected order in each direction |
| ListViewModel.NameMatches | Dessertly/ViewModels/DessertsListViewModel.swift:43 | the lowercased name contains the lowercased query, which ListViewModel.NameMatchesIff states as an occurrence at some position |
| ListViewModel.NameMatchesIff | Dessertly/ViewModels/DessertsListViewModel.swift:43 | a dessert matches exactly when the lowercased query occurs in its lowercased name |
| ListViewModel.FilterByName | Dessertly/ViewModels/DessertsListViewModel.swift:43 | only matching desserts, each as often as in the list, in the list's order |
| ListViewModel.FilteredDesserts | Dessertly/ViewModels/DessertsListViewModel.swift:39-45 | the shown desserts are a subsequence of the loaded ones and, for a non-empty query, all match it; ListViewModel.FilteredDessertsMembership states both directions |
| ListViewModel.FilteredDessertsMembership | Dessertly/ViewModels/DessertsListViewModel.swift:39-45 | a dessert is shown exactly when it is loaded and the query is empty or matches it |
| ListViewModel.EmptyQueryKeepsEverything | Dessertly/ViewModels/DessertsListViewModel.swift:40-44 | in the model, filtering by the empty query keeps every dessert, since the model's `Contains` finds the empty pattern everywhere; the `isEmpty` branch makes this case unreachable in the app |
| ListViewModel.FilterIgnoresQueryCase | Dessertly/ViewModels/DessertsListViewModel.swift:43 | queries that lowercase alike show the same desserts |
| ListViewModel.FilterIdempotent | Dessertly/ViewModels/DessertsListViewModel.swift:43 | filtering the results again by the same query changes nothing |
| ListViewModel.DessertsListViewModel.constructor | Dessertly/ViewModels/DessertsListViewModel.swift:13-16 | no desserts, loading, no error message |
| ListViewModel.DessertsListViewModel.HasError | Dessertly/ViewModels/DessertsListViewModel.swift:47-49 | an error message is stored; ListViewModel.DessertsListViewModel.LoadDesserts states when it turns true |
| ListViewModel.DessertsListViewModel.LoadDesserts | Dessertly/ViewModels/DessertsListViewModel.swift:22-37 | not loading afterwards; success stores the list in both fields; failure keeps the lists, reports the error and stores the enum's own message for a `DessertServiceError`, the bridged description otherwise; the shown desserts stay a subsequence of the loaded ones |
| ListViewModel.DessertsListViewModel.GetFilteredDesserts | Dessertly/ViewModels/DessertsListViewModel.swift:39-45 | shows every dessert for an empty query, else the matching ones, and changes nothing else |
| ListViewModel.ExampleMatches | Dessertly/ViewModels/DessertsListViewModel.swift:43 | "Banana Bread" matches "Bread" |
| ListViewModel.ExampleMismatches | Dessertly/ViewModels/DessertsListViewModel.swift:43 | "Apple Pie" and "Cherry Tart" do not match "Bread" |
| ListViewModel.FilterKeepsOnlyMiddle | Dessertly/ViewModels/DessertsListViewModel.swift:39-45 | of three desserts, a query only the middle one matches shows that one alone |
| ListViewModel.SearchExample | Dessertly/ViewModels/DessertsListViewModel.swift:39-45 | searching "Bread" among three desserts shows Banana Bread only |
| ListViewModel.LoadFromMock | DessertlyTests/DessertsListViewModelTests.swift:29-52 | the mock's two desserts arrive in order; with a throwing mock the error slot holds an error |

## Left out

- Concurrency: the actors, `async`/`await` and `Task` are sequential method calls here. Interleavings between actors are not modelled.
- I/O: `URLSession` and the response-level `JSONDecoder` parse are parameters (`load`). This includes a `meals` value that is `null` or malformed, and non-string JSON values (`typeMismatch`). The model starts from the decoded `[Dessert]` list or the raw detail records.
- `URLComponents.url` is the parameter `resolves`; the model does not decide which components form a valid URL.
- `describe`: the `localizedDescription` Foundation gives an `any Error` (an `NSError` bridge) is a parameter. Only the enum's own property is modelled as text.
- Strings.Lowercased, Strings.Capitalized: map ASCII letters only. Swift's and Foundation's full Unicode case mapping and grapheme-cluster handling are not modelled.
- Strings.Capitalized: follows the word rule of Foundation's implementation (CFStringCapitalize), not the documented "words are delimited by spaces, tabs or line terminators". A letter starts a word unless the last character before it that is not case-ignorable is a cased letter. Cased letters and case-ignorable characters are recognised in ASCII and Latin-1 only. A letter of another script counts as a non-letter, so the character after it starts a word.
- Strings.Less, Strings.Contains, DessertDetails.SplitLines: compare Unicode scalars one by one. Swift's `String` `<`, `contains` and `split` work on `Character`s under canonical equivalence, so precomposed and decomposed spellings of the same text are not identified here.
- Strings.Contains: finds the empty pattern in every string. Foundation's `contains` does not, as far as can be told from its documentation; the search never asks, because an empty query takes the `isEmpty` branch.
- DetailViewModel.SortIngredients: Swift's `sorted` leaves the order of names that lowercase alike unspecified. The model puts them in the order of the names themselves. DetailViewModel.DecodedIngredientsSortWithoutTies shows this case cannot arise for a decoded record.
- DessertServices.SortByName: the model is an insertion sort; Swift's `sorted` is not promised to be stable. Sortedness and permutation are what `sorted` promises. DessertServices.SortByNameKeepsSorted is about the model's stable sort, and fixes the order of equal names, which Swift's `sorted` does not promise.
- DessertServices.FetchDesserts, DessertServices.FetchDessertDetail: the repeated report into the error slot (inside the `guard` and again in the `catch`) is modelled, but only the final slot state is stated.
- `ImageCache`, `CachedAsyncImage`, the SwiftUI views and `DessertlyApp` are not part of this model.
- `DynamicCodingKeys` is modelled only as the key strings `strIngredient<n>` and `strMeasure<n>`.
