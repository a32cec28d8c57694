# XCNetworking header block, redirect errors and request control, in Dafny

This project models three parts of the XCNetworking Swift package and proves
properties about them.

- **`NWHeaders`**, the HTTP header block. It is an ordered list of
  `(name, value)` pairs plus a cached keep-alive state. The model covers:
  - the ASCII case-insensitive byte comparison behind every name lookup,
    which masks each byte with `0xDF`;
  - whitespace trimming;
  - `add`, `add(contentsOf:)` for a sequence or another block, `remove` and
    `replaceOrAdd`;
  - the lookups `subscript(name)`, `first` and `contains`;
  - `subscript(canonicalForm:)`;
  - equality, which compares entry counts, the sets of lowercased names and
    the sorted values per name;
  - the invalidation of the keep-alive cache by `Connection`.
- **`NWError`**, in part:
  - the redirect kinds and their statuses;
  - the `redirect(to:)` constructors, which build a header block with one
    `Location` entry;
  - the defaults of the error initializer;
  - the string helpers used to format decoding errors (`dotPath`, the
    removal of one trailing dot, and the underlying-error suffix).
- **`NWRequest`**, in part:
  - `cancel`/`resume`/`suspend`, which either forward to the attached
    transport request or record a pending state;
  - the `afRequest` observer, which replays that pending state;
  - the `addHeader`/`addQuery`/`addBody`/`addFromData` builders;
  - the default timeout of 15 seconds and the default method `GET`, both of
    which a subclass may override (`Requests.Timeout`,
    `Requests.RequestMethod`).

Modelling choices:

- Header names and values are UTF-8 byte strings (`seq<bv8>`). The Swift
  code compares their `utf8` views byte by byte.
- `lowercased()` is modelled as ASCII lowercasing.
- `sorted()` on strings is modelled as insertion sort under byte-wise
  lexicographic order. The sorted permutation is unique, so header equality
  amounts to comparing the bag of values of each lowercased name
  (`HeadersEquality.EqualIffSameValueBags`).
- `split(separator: ",")` drops empty pieces. It is modelled as a full split
  (`Sequences.SplitAll`, which round-trips with `Join`) followed by dropping
  the empty pieces.
- Trimming strips only space and tab.
- The transport request (Alamofire's `Request`) is left abstract. It appears
  as a handle, plus the log of commands forwarded to it.
- Reason phrases of the redirect statuses follow section 15.4 of RFC 9110.
  The status type itself is not part of this model.

Points where the model follows the code rather than the documented behaviour:

- `add` traps on a non-ASCII name through a Swift `precondition`. It does
  not return a recoverable error. The model states this as
  `requires IsAscii(name)` on `Add`, `AddAll` and `ReplaceOrAdd`. The
  initialisers check nothing, so `FromPairs` has no such requirement.
- Name matching masks with `0xDF`, which is not case folding. For example
  "@" matches "`", and "^" matches "~". Equality uses `lowercased()`, which
  keeps those names apart. As a result, equality can hold between blocks that
  disagree on a name (`HeadersEquality.EqualityMaskQuirk`).
- Storing a `nil` query value through `self.query?[key] = val` stores a
  present key with no value. It does not remove the key.
- The `afRequest` observer does not clear `needRequestState`. Attaching a
  second transport request replays the pending state again.

## Model

| member | source | states |
|---|---|---|
| AsciiBytes.CompareCaseInsensitiveASCIIBytes | Sources/XCNetworking/Headers/NWHeaders.swift:27-51 | the loop answers true exactly when both names have the same length and every byte pair agrees after masking with 0xDF |
| AsciiBytes.NamesMatch | Sources/XCNetworking/Headers/NWHeaders.swift:49 | the element-wise comparison holds exactly when the names have the same length and each byte pair is equal or differs only in bit 0x20 |
| AsciiBytes.NamesMatchReflexive | Sources/XCNetworking/Headers/NWHeaders.swift:27-51 | every name matches itself |
| AsciiBytes.NamesMatchSymmetric | Sources/XCNetworking/Headers/NWHeaders.swift:27-51 | name matching does not depend on argument order |
| AsciiBytes.NamesMatchTransitive | Sources/XCNetworking/Headers/NWHeaders.swift:27-51 | name matching is transitive, so it partitions names into classes |
| AsciiBytes.FoldCharacterization | Sources/XCNetworking/Headers/NWHeaders.swift:38 | two bytes agree under the mask exactly when they are equal or differ only in bit 0x20 |
| AsciiBytes.MaskIsNotCaseFolding | Sources/XCNetworking/Headers/NWHeaders.swift:38 | "@" matches "`" and "[" matches "{", yet their lowercase forms differ |
| AsciiBytes.Lower | Sources/XCNetworking/Headers/NWHeaders.swift:345 | lowercasing moves A-Z to a-z and leaves every other byte alone |
| AsciiBytes.LowerBytes | Sources/XCNetworking/Headers/NWHeaders.swift:345 | a lowercased name has the same length and is lowercased byte by byte |
| AsciiBytes.LowerEqualImpliesMatch | Sources/XCNetworking/Headers/NWHeaders.swift:345-352 | names with equal lowercase forms also match under the mask |
| AsciiBytes.MatchLettersIsCaseVariant | Sources/XCNetworking/Headers/NWHeaders.swift:27-51 | against a name made of letters only, matching under the mask holds exactly when the lowercase forms are equal |
| AsciiBytes.IsAscii | Sources/XCNetworking/Headers/NWHeaders.swift:54-58 | a name is ASCII exactly when every byte has its top bit clear, so no byte belongs to a multi-byte UTF-8 character |
| AsciiBytes.IsWhitespace | Sources/XCNetworking/Headers/NWHeaders.swift:61-70 | space and tab are whitespace; every whitespace byte is ASCII; carriage return and line feed are not whitespace |
| AsciiBytes.TrimOneByte | Sources/XCNetworking/Headers/NWHeaders.swift:61-89 | trimming removes a single byte exactly when it is a space or a tab |
| AsciiBytes.TrimWhitespace | Sources/XCNetworking/Headers/NWHeaders.swift:80-89 | the result is never longer than the input; it is empty exactly when the input is all spaces/tabs, and otherwise starts and ends with a non-whitespace byte |
| AsciiBytes.TrimIsSlice | Sources/XCNetworking/Headers/NWHeaders.swift:80-89 | the result is a contiguous slice of the input and everything cut from either end is whitespace |
| AsciiBytes.TrimIdempotent | Sources/XCNetworking/Headers/NWHeaders.swift:80-89 | trimming twice is trimming once |
| HttpHeaders.FromPairs | Sources/XCNetworking/Headers/NWHeaders.swift:119-131 | the initialisers keep the pairs exactly as given, with no check on the names, and start with an unknown keep-alive state |
| HttpHeaders.IsConnectionHeader | Sources/XCNetworking/Headers/NWHeaders.swift:110-112 | a name is a `Connection` name exactly when its lowercase form is "connection"; the mask quirk cannot reach it because every byte of "connection" is a letter |
| Sequences.SplitAll | Sources/XCNetworking/Headers/NWHeaders.swift:287 | the pieces contain no separator, there is at least one, and joining them with the separator gives the input back |
| Sequences.Split | Sources/XCNetworking/Headers/NWHeaders.swift:287 | split pieces are non-empty and separator-free; with `SplitOfJoin` the pieces are exactly the non-empty separator-free runs of the input, in order |
| Sequences.SplitAllJoin | Sources/XCNetworking/Headers/NWHeaders.swift:287 | splitting a join of separator-free pieces gives the pieces back |
| Sequences.NonEmpty | Sources/XCNetworking/Headers/NWHeaders.swift:287 | the result is no longer than the input, holds only non-empty pieces and every non-empty piece of the input; `NonEmptyOne` and `NonEmptyAppend` fix order and multiplicity |
| Sequences.NonEmptyOne | Sources/XCNetworking/Headers/NWHeaders.swift:287 | a single piece is kept exactly when it is non-empty |
| Sequences.NonEmptyAppend | Sources/XCNetworking/Headers/NWHeaders.swift:287 | dropping empty pieces distributes over concatenation, so kept pieces keep their order and multiplicity |
| Sequences.SplitOfJoin | Sources/XCNetworking/Headers/NWHeaders.swift:287 | separator-free pieces joined by the separator split into exactly the non-empty ones among them, in order |
| Sequences.JoinAppend | Sources/networking/Error/NWError.swift:184 | joining one more piece appends the separator and that piece |
| ByteOrder.LexTotal | Sources/XCNetworking/Headers/NWHeaders.swift:352 | byte-wise string order is total |
| ByteOrder.LexAntisymmetric | Sources/XCNetworking/Headers/NWHeaders.swift:352 | byte-wise string order is antisymmetric |
| ByteOrder.LexTransitive | Sources/XCNetworking/Headers/NWHeaders.swift:352 | byte-wise string order is transitive |
| ByteOrder.Insert | Sources/XCNetworking/Headers/NWHeaders.swift:352 | inserting into a sorted list keeps it sorted and adds exactly the one element |
| ByteOrder.Sort | Sources/XCNetworking/Headers/NWHeaders.swift:352 | `sorted()` yields a sorted permutation of the values |
| ByteOrder.SortedUnique | Sources/XCNetworking/Headers/NWHeaders.swift:352 | two sorted lists with the same elements are equal |
| ByteOrder.SortEqualIffPermutation | Sources/XCNetworking/Headers/NWHeaders.swift:352 | two value lists sort to the same list exactly when one is a permutation of the other |
| HttpHeaders.Values | Sources/XCNetworking/Headers/NWHeaders.swift:226-233 | `subscript(name)` returns no more values than there are entries; with `ValuesContents` and `ValuesAppend` it is the in-order list of the matching entries' values |
| HttpHeaders.ValuesContents | Sources/XCNetworking/Headers/NWHeaders.swift:226-233 | a value is returned exactly when some entry whose name matches carries it |
| HttpHeaders.ValuesAppend | Sources/XCNetworking/Headers/NWHeaders.swift:226-233 | the values of a concatenated block are the values of each part, in order |
| HttpHeaders.ValuesMembership | Sources/XCNetworking/Headers/NWHeaders.swift:226-233 | the value of every entry whose name matches is among the looked-up values |
| HttpHeaders.ValuesCaseInsensitive | Sources/XCNetworking/Headers/NWHeaders.swift:226-266 | lookups under two matching names (e.g. two case variants) return the same values, first value and presence |
| HttpHeaders.First | Sources/XCNetworking/Headers/NWHeaders.swift:246-252 | `first(name:)` is nil exactly when no entry matches, and otherwise the value of the earliest matching entry |
| HttpHeaders.Contains | Sources/XCNetworking/Headers/NWHeaders.swift:259-266 | `contains(name:)` holds exactly when some entry's name matches |
| HttpHeaders.LookupsAgree | Sources/XCNetworking/Headers/NWHeaders.swift:226-266 | `first` is the head of `subscript(name)` and `contains` holds exactly when it is non-empty |
| HttpHeaders.Add | Sources/XCNetworking/Headers/NWHeaders.swift:142-148 | for an ASCII name, the entry is appended after the unchanged existing ones; the keep-alive state is reset only for `Connection` |
| HttpHeaders.AddValues | Sources/XCNetworking/Headers/NWHeaders.swift:142-148 | after `add`, a matching lookup gains exactly the new value at the end; other lookups are unchanged |
| HttpHeaders.AddKeepsCacheValid | Sources/XCNetworking/Headers/NWHeaders.swift:142-148 | after `add` the keep-alive cache is either reset or still describes the `Connection` values |
| HttpHeaders.AddAll | Sources/XCNetworking/Headers/NWHeaders.swift:159-164 | adding a sequence appends exactly its pairs in order; the state is reset if any is `Connection`, else kept |
| HttpHeaders.AddAllKeepsCacheValid | Sources/XCNetworking/Headers/NWHeaders.swift:159-164 | adding a sequence keeps the keep-alive cache valid |
| HttpHeaders.FromPairsIsAddAll | Sources/XCNetworking/Headers/NWHeaders.swift:105-131 | building a block from ASCII-named pairs equals adding them one by one to an empty block |
| HttpHeaders.AddHeaders | Sources/XCNetworking/Headers/NWHeaders.swift:169-174 | merging appends the other block's entries; the state is reset exactly when the other block's state is unknown |
| HttpHeaders.MergeKeepsCacheValid | Sources/XCNetworking/Headers/NWHeaders.swift:169-174 | merging keeps the cache valid when the other block's state is unknown or it has no `Connection` entry |
| HttpHeaders.MergeMayKeepStaleState | Sources/XCNetworking/Headers/NWHeaders.swift:169-174 | merging a block with a resolved state and a `Connection: close` entry into a keep-alive block leaves a stale cache |
| HttpHeaders.Without | Sources/XCNetworking/Headers/NWHeaders.swift:206-212 | the kept entries are exactly the entries whose names do not match, and nothing new appears |
| HttpHeaders.WithoutAppend | Sources/XCNetworking/Headers/NWHeaders.swift:206-212 | removal distributes over concatenation |
| HttpHeaders.WithoutIdempotent | Sources/XCNetworking/Headers/NWHeaders.swift:206-212 | removing a name twice is removing it once |
| HttpHeaders.WithoutSameName | Sources/XCNetworking/Headers/NWHeaders.swift:206-212 | removing under two matching names removes the same entries |
| HttpHeaders.WithoutValues | Sources/XCNetworking/Headers/NWHeaders.swift:202-213 | after removal a matching lookup is empty and any other lookup is unchanged |
| HttpHeaders.Remove | Sources/XCNetworking/Headers/NWHeaders.swift:202-213 | after `remove(name:)` the entries are exactly the non-matching ones in their original order (`Without`), none matches the name, and the state is reset only for `Connection` |
| HttpHeaders.RemoveKeepsCacheValid | Sources/XCNetworking/Headers/NWHeaders.swift:202-213 | removing keeps the keep-alive cache valid |
| HttpHeaders.RemoveAfterAdd | Sources/XCNetworking/Headers/NWHeaders.swift:142-213 | removing a name just added, under any matching spelling, leaves no value for it |
| HttpHeaders.ReplaceOrAdd | Sources/XCNetworking/Headers/NWHeaders.swift:189-195 | the result is the block without matching entries followed by the one new entry; the state is reset only for `Connection` |
| HttpHeaders.ReplaceOrAddValues | Sources/XCNetworking/Headers/NWHeaders.swift:189-195 | afterwards a matching lookup gives exactly the new value; other lookups are unchanged |
| HttpHeaders.ReplaceOrAddTwice | Sources/XCNetworking/Headers/NWHeaders.swift:189-195 | replacing twice under matching names equals replacing once with the later value |
| HttpHeaders.ReplaceOrAddKeepsCacheValid | Sources/XCNetworking/Headers/NWHeaders.swift:189-195 | `replaceOrAdd` keeps the keep-alive cache valid |
| HeadersEquality.EqualIffSameValueBags | Sources/XCNetworking/Headers/NWHeaders.swift:340-358 | `==` holds exactly when the counts and lowercased name sets agree and each name has the same bag of values on both sides |
| HeadersEquality.Equal | Sources/XCNetworking/Headers/NWHeaders.swift:341-358 | equal blocks have the same number of entries, and blocks with the same entries are equal whatever their keep-alive states |
| HeadersEquality.LowerNames | Sources/XCNetworking/Headers/NWHeaders.swift:345-346 | every entry's lowercased name is in the set and every name in it is lowercase; `LowerNamesEmpty`, `LowerNamesOfOne` and `LowerNamesAppend` make it exactly the entries' lowercased names |
| HeadersEquality.LowerNamesEmpty | Sources/XCNetworking/Headers/NWHeaders.swift:345-346 | an empty block has no names |
| HeadersEquality.LowerNamesOfOne | Sources/XCNetworking/Headers/NWHeaders.swift:345-346 | a one-entry block has exactly its entry's lowercased name |
| HeadersEquality.LowerNamesAppend | Sources/XCNetworking/Headers/NWHeaders.swift:345-346 | the names of concatenated entries are the union of the names of each part |
| HeadersEquality.EqualReflexive | Sources/XCNetworking/Headers/NWHeaders.swift:340-358 | every block equals itself |
| HeadersEquality.EqualSymmetric | Sources/XCNetworking/Headers/NWHeaders.swift:340-358 | `==` is symmetric |
| HeadersEquality.EqualTransitive | Sources/XCNetworking/Headers/NWHeaders.swift:340-358 | `==` is transitive |
| HeadersEquality.ValuesPermutation | Sources/XCNetworking/Headers/NWHeaders.swift:226-233 | permuting the entries permutes every lookup's values |
| HeadersEquality.EqualIgnoresOrder | Sources/XCNetworking/Headers/NWHeaders.swift:340-358 | two blocks whose entries are permutations of each other are equal |
| HeadersEquality.LowerBytesIdempotent | Sources/XCNetworking/Headers/NWHeaders.swift:345 | lowercasing twice is lowercasing once |
| HeadersEquality.NoLowerNameNoValues | Sources/XCNetworking/Headers/NWHeaders.swift:345-352 | a name matching no lowercased entry name has no values |
| HeadersEquality.EqualLookupsAgree | Sources/XCNetworking/Headers/NWHeaders.swift:340-358 | equal blocks return the same bag of values and the same presence for every lookup |
| HeadersEquality.EqualityExamples | Sources/XCNetworking/Headers/NWHeaders.swift:340-358 | one-entry blocks whose names lowercase alike are equal when the values agree (e.g. "x: 1" and "X: 1"), and a block differs from one with another value for the same name |
| HeadersEquality.SwappedValuesSameBag | Sources/XCNetworking/Headers/NWHeaders.swift:226-233 | for two names that match under the mask, swapping their values changes no lookup's bag of values |
| HeadersEquality.EqualityMaskQuirk | Sources/XCNetworking/Headers/NWHeaders.swift:340-358 | for two names matching under the mask, [n1: v1, n2: v2] equals [n1: v2, n2: v1], although `first(name:)` under n1 answers v1 in one and v2 in the other |
| CanonicalForm.TrimExact | Sources/XCNetworking/Headers/NWHeaders.swift:80-89 | whitespace around a piece with non-whitespace ends is exactly what trimming removes |
| CanonicalForm.TrimEach | Sources/XCNetworking/Headers/NWHeaders.swift:287 | every split piece is trimmed, order and count kept |
| CanonicalForm.SplitAndTrim | Sources/XCNetworking/Headers/NWHeaders.swift:287 | every piece of a split value is a list element: no comma and no space/tab at either end; `SplitAndTrimJoin` gives the pieces themselves |
| CanonicalForm.SplitAndTrimAll | Sources/XCNetworking/Headers/NWHeaders.swift:287 | the flattened pieces of all values are list elements; with `SplitAndTrimAllAppend` they are each value's pieces in turn |
| CanonicalForm.SplitAndTrimAllAppend | Sources/XCNetworking/Headers/NWHeaders.swift:287 | the pieces of concatenated values are the concatenated pieces |
| CanonicalForm.CanonicalForm | Sources/XCNetworking/Headers/NWHeaders.swift:275-288 | no values give []; `Set-Cookie`, in any case, gives the raw values; otherwise every result is a list element, and `CanonicalFormOne` with `CanonicalFormAppend` fixes the result line by line |
| CanonicalForm.CanonicalFormAppend | Sources/XCNetworking/Headers/NWHeaders.swift:275-288 | outside `Set-Cookie`, the canonical form of concatenated blocks is the concatenation of their canonical forms |
| CanonicalForm.CanonicalFormOne | Sources/XCNetworking/Headers/NWHeaders.swift:275-288 | outside `Set-Cookie`, one header line gives its value split and trimmed when its name matches, and nothing otherwise |
| CanonicalForm.SplitAndTrimJoin | Sources/XCNetworking/Headers/NWHeaders.swift:287 | a value written as comma-free pieces splits into the non-empty ones among them, in order, each trimmed; empty pieces from any comma run, leading or trailing comma are dropped |
| CanonicalForm.ListElementsRoundTrip | Sources/XCNetworking/Headers/NWHeaders.swift:287 | non-empty list elements joined with ',' come back unchanged |
| CanonicalForm.ListHeaderExample | Sources/XCNetworking/Headers/NWHeaders.swift:275-288 | "a, b" under any case of a non-cookie name has canonical form ["a", "b"] |
| CanonicalForm.SetCookieExample | Sources/XCNetworking/Headers/NWHeaders.swift:282-285 | a `Set-Cookie` value is returned whole, commas included |
| CanonicalForm.DoubleCommaExample | Sources/XCNetworking/Headers/NWHeaders.swift:287 | "a,,b" gives ["a", "b"]: empty pieces vanish |
| CanonicalForm.SpacedCommaExample | Sources/XCNetworking/Headers/NWHeaders.swift:287 | "a, ,b" gives ["a", "", "b"]: a whitespace piece survives the split and is trimmed to empty |
| CanonicalForm.OuterCommasIgnored | Sources/XCNetworking/Headers/NWHeaders.swift:287 | commas at either end of a value add no pieces |
| CanonicalForm.NoPiecesWithoutContent | Sources/XCNetworking/Headers/NWHeaders.swift:287 | an empty value, or a value of commas only, has no pieces |
| Errors.RedirectStatus | Sources/networking/Error/NWError.swift:143-151 | each of the four kinds has exactly its code: permanent 301, normal 303, temporary 307, permanentPost 308 |
| Errors.RedirectStatusInjective | Sources/networking/Error/NWError.swift:143-151 | distinct kinds give distinct statuses, and the code recovers the kind |
| Errors.RedirectOfCodeOnlyRedirects | Sources/networking/Error/NWError.swift:143-151 | only the four redirect codes stand for a redirect kind |
| Errors.RedirectTypeStatus | Sources/networking/Error/NWError.swift:105-111 | the deprecated type yields one of 301, 303, 307 |
| Errors.RedirectTypeAgrees | Sources/networking/Error/NWError.swift:105-111 | the deprecated type agrees with the new kinds on the three kinds they share |
| Errors.Digits | Sources/networking/Error/NWError.swift:76 | a code's digits are decimal digits with no leading zero |
| Errors.Description | Sources/networking/Error/NWError.swift:76 | the description of a code starts with '-' exactly when the code is negative, and the rest is at least one decimal digit with no leading zero, as `Int.description` writes it |
| Errors.DescriptionRoundTrip | Sources/networking/Error/NWError.swift:76 | a code's description parses back to the code |
| Errors.DescriptionInjective | Sources/networking/Error/NWError.swift:76 | distinct codes have distinct descriptions |
| Errors.MakeError | Sources/networking/Error/NWError.swift:63-88 | given reason and identifier are kept; a missing reason becomes the status's reason phrase and a missing identifier exactly the code's description, which parses back to the code |
| Errors.DefaultsComeFromStatus | Sources/networking/Error/NWError.swift:76-79 | an error built with all defaults has the status's reason phrase, the code's description and no headers |
| Errors.RedirectTo | Sources/networking/Error/NWError.swift:38-42 | a redirect error carries the kind's status and phrase and exactly one header, named `Location` up to case, holding the location |
| Errors.RedirectDefaultsToSeeOther | Sources/networking/Error/NWError.swift:38 | with no kind given, a redirect is a 303 |
| Errors.RedirectLocationLookup | Sources/networking/Error/NWError.swift:38-42 | looking `Location` up in a redirect's headers under any case finds exactly the location |
| Errors.RedirectToType | Sources/networking/Error/NWError.swift:22-26 | the deprecated redirect has the deprecated type's status |
| Errors.RedirectToTypeAgrees | Sources/networking/Error/NWError.swift:22-26 | the deprecated redirect builds the same error as the new one under the renamed kind |
| Errors.DotPath | Sources/networking/Error/NWError.swift:184 | an empty path is "", a one-key path is the key itself |
| Errors.DotPathAppend | Sources/networking/Error/NWError.swift:184 | extending a non-empty path by a key appends "." and the key |
| Errors.DotPathRoundTrip | Sources/networking/Error/NWError.swift:184 | for dot-free keys, splitting the path at '.' gives the keys back |
| Errors.DebugDescriptionNoTrailingDot | Sources/networking/Error/NWError.swift:232-240 | empty exactly for an empty description; otherwise ". " followed by the description, with its trailing '.' removed when it has one and unchanged when it has none |
| Errors.TrailingDotIgnored | Sources/networking/Error/NWError.swift:231-240 | a description with and without one trailing '.' gives the same text |
| Errors.OnlyOneDotDropped | Sources/networking/Error/NWError.swift:235-236 | a description ending in ".." keeps one trailing dot |
| Errors.UnderlyingErrorDescription | Sources/networking/Error/NWError.swift:242-247 | "" exactly when there is no underlying error, otherwise ". Underlying error: " and its description |
| Errors.UnderlyingErrorInjective | Sources/networking/Error/NWError.swift:242-247 | different underlying errors give different texts |
| Errors.DebugDescriptionAndUnderlyingError | Sources/networking/Error/NWError.swift:227-229 | the message tail is the prepared description, then ". Underlying error: " and the error's text when there is one, then one closing '.' |
| Errors.NoDoubledDot | Sources/networking/Error/NWError.swift:227-240 | a trailing '.' on the description never doubles the closing '.' |
| Requests.Target | Sources/networking/Resquet/NWRequest.swift:120-142 | a command never asks for the initialized or finished state |
| Requests.ReplayRoundTrip | Sources/networking/Resquet/NWRequest.swift:83-142 | the state a command records replays as that command, and only the cancelled/suspended/resumed states replay |
| Requests.Perform | Sources/networking/Resquet/NWRequest.swift:120-142 | with a transport attached, one call forwards exactly its command and leaves the pending state; without one, it forwards nothing and records the command's state |
| Requests.CancelRequest | Sources/networking/Resquet/NWRequest.swift:120-126 | `cancel` forwards a cancel to the attached transport, or records cancelled |
| Requests.ResumeRequest | Sources/networking/Resquet/NWRequest.swift:128-134 | `resume` forwards a resume to the attached transport, or records resumed |
| Requests.SuspendRequest | Sources/networking/Resquet/NWRequest.swift:136-142 | `suspend` forwards a suspend to the attached transport, or records suspended |
| Requests.SetTransport | Sources/networking/Resquet/NWRequest.swift:83-95 | attaching replays a pending cancelled/suspended/resumed state as one forwarded command and nothing otherwise; detaching forwards nothing; the pending state is kept |
| Requests.PerformAll | Sources/networking/Resquet/NWRequest.swift:120-142 | a run of calls never changes the attached transport |
| Requests.LastCallWins | Sources/networking/Resquet/NWRequest.swift:120-142 | before attaching, calls forward nothing and the last call decides the pending state |
| Requests.AttachedForwardsAll | Sources/networking/Resquet/NWRequest.swift:120-142 | with a transport attached, every call is forwarded to it in order and the pending state is untouched |
| Requests.AttachReplaysLastCall | Sources/networking/Resquet/NWRequest.swift:83-142 | calls made before attaching reach the transport as exactly one command, the last one |
| Requests.ReattachReplaysAgain | Sources/networking/Resquet/NWRequest.swift:83-95 | the pending state survives a replay, so attaching a second transport replays it again |
| Requests.Timeout | Sources/networking/Resquet/NWRequest.swift:33-35 | `timeout()` is 15 seconds unless a subclass overrides it |
| Requests.RequestMethod | Sources/networking/Resquet/NWRequest.swift:37-39 | `method()` is `GET` unless a subclass overrides it |
| Requests.Upsert | Sources/networking/Resquet/NWRequest.swift:41-67 | an absent map is created; the key maps to the value and every other key keeps its entry or its absence |
| Requests.UpsertLastWins | Sources/networking/Resquet/NWRequest.swift:41-67 | a later value for the same key replaces the earlier one |
| Requests.UpsertCommutes | Sources/networking/Resquet/NWRequest.swift:41-67 | writes to different keys commute |
| Requests.AddHeader | Sources/networking/Resquet/NWRequest.swift:41-46 | `addHeader` updates only the header map |
| Requests.AddQuery | Sources/networking/Resquet/NWRequest.swift:48-53 | `addQuery` stores the key even with a nil value, and updates only the query map |
| Requests.QueryNilKeepsKey | Sources/networking/Resquet/NWRequest.swift:48-53 | adding a nil value after a real one leaves the key present with no value |
| Requests.AddBody | Sources/networking/Resquet/NWRequest.swift:55-60 | `addBody` updates only the body map |
| Requests.AddFormData | Sources/networking/Resquet/NWRequest.swift:62-67 | `addFromData` updates only the form-data map |

## Left out

- `capacity` and `reserveCapacity` are left out because they are allocation hints with no observable behaviour.
- The `Index` wrapper and the `RandomAccessCollection` conformance are left out. They only expose positions in the entry list, which the model holds as a `seq`.
- `description`, `names` and `Sendable` are left out. They are printing, a projection and a concurrency marker.
- Which of the two paths of `compareCaseInsensitiveASCIIBytes` runs depends on whether contiguous storage is available, which the model does not track. Both paths are kept, and `CompareCaseInsensitiveASCIIBytes` is proved to answer `NamesMatch`, the fallback.
- Unicode: names and values are byte strings. `lowercased()` is ASCII-only, and `sorted()` is byte-wise. This matches Swift only for ASCII text.
- `NWResponseStatus` is not part of this model. Only a code and a reason phrase are kept, with the phrases of section 15.4 of RFC 9110. The `.location` header name is taken to be "Location".
- The error's `source` (`ErrorSource`) and `stackTrace` are left out. They are debugging plumbing captured from the runtime.
- The initializer's `suggestedFixes` parameter is left out. The initializer accepts it and discards it, so it is neither stored nor used.
- The `DecodingError` conformance is modelled only through its pure string helpers. Its status, identifiers and the four message templates are left out.
- Underlying errors are represented by their description string. Swift's string interpolation of an `Error` value is not modelled.
- `NWMethod` is not part of this model. Only its `GET` case is named; any other method is kept as its raw value.
- `url()` is left out because it relies on `URLComponents`. The `scheme()` debug switch is a build flag. `host()`/`path()` trap until overridden.
- `interceptors`, `files`, `responsePreprocessor`, `destination` and the progress handlers are left out. They are handed to the transport library as-is.
- The Objective-C associated object `nwRequest`, `needLogin` and `NWRequestTypesProtocol` are left out. They are runtime reflection.
- The Alamofire dispatch, the adapter, the interface forwarders, the package manifest and the placeholder test are left out. They are foreign calls, async glue or build files.
- The transport request's own state changes after a command are not modelled. Only the commands it receives are logged.
