# Aswan dashboard API-key table, modelled in Dafny

The Aswan dashboard is a React component that lets a user manage API keys
for the Aswan gateway. Its logic, apart from rendering, lives in a small
in-memory table of `ApiKey` rows (`id`, `name`, `key`, `status`,
`requests`, `createdAt`) and a few handlers:

- `generateRandomKey` builds a key string `XXXX-XXXX-XXXX-XXXX`. It uses two
  nested loops that draw characters from `A-Z0-9` and then joins the four
  segments with `-`.
- `handleGenerateApiKey` ignores a name that is blank after `trim()`.
  Otherwise it appends a fresh Active row with 0 requests. Its id is the
  table length plus one, its name is the input as typed, and its date is
  the date part of the current ISO timestamp.
- `handleDeleteApiKey` keeps every row whose id differs from the one given.
- The "Active API Keys" card shows the number of Active rows.
- The table starts from three seed rows.

The model has four modules:

- `JsBuiltins`: the JavaScript library operations the handlers rely on:
  `trim` with ECMAScript's white-space set, `charAt`, `split("T")[0]`,
  `filter` and `join`. Filter comes with lemmas about order, multiplicity,
  concatenation, idempotence, commutation and length.
- `KeyGen`: `generateRandomKey` as a method with its two loops, proved
  against the specification function `KeyOf`. There are lemmas on the key
  format and on a decoder that inverts the generator, so the format
  describes exactly the keys the generator can return.
- `ApiKeys`: the record, the three status values, and the add, delete and
  count operations as functions on the table. Their lemmas cover
  blank-name no-ops, exact delete, count bounds and the id rule.
- `Dashboard`: the seed table and the two handlers as methods that replace
  the table, as `setApiKeys` does. There are facts about the seed.

`Math.random()` becomes a parameter: a sequence of sixteen draws,
consumed one per character in loop order. The source's
`Math.floor(Math.random() * chars.length)` always lies in `[0, 36)`; that
is `ValidDraws`. `new Date().toISOString()` also becomes a parameter: the
timestamp string.

The id rule `apiKeys.length + 1` is modelled as written. Ids stay unique
while rows are only added (`AddKeepsSequential`). After deleting any row
but the last from a table with ids 1..n, the next key repeats an id that
is still present (`DeleteThenAddUniqueIff`, `SeedDeleteThenAddRepeatsId`).
A later delete of that id then removes both rows.

## Model

| member | source | states |
|---|---|---|
| KeyGen.AlphabetChar | aswan-dashboard.tsx:85 | character k of `chars` is A..Z or 0..9 and its alphabet index is k |
| KeyGen.Alphabet | aswan-dashboard.tsx:85 | `chars` has 36 characters, all A..Z or 0..9; AlphabetIsSourceLiteral proves it is the source's literal |
| KeyGen.Spell | aswan-dashboard.tsx:89-91 | the characters `charAt` yields for a run of draws, at most one per draw; for in-range draws SpellLength and SpellAt give its exact length and characters; otherwise SpellLength says it is shorter than the run |
| KeyGen.Segment | aswan-dashboard.tsx:88-92 | one pushed segment, at most four characters; SegmentSpelling gives its characters for valid draws |
| KeyGen.Segments | aswan-dashboard.tsx:87-93 | the four segments in push order; GenerateRandomKey's outer loop invariant ties the array it builds to them |
| KeyGen.KeyOf | aswan-dashboard.tsx:84-95 | the returned key, at most 19 characters; KeyFormat, KeyLengthIff and EncodeDecode say it has the key format exactly for valid draws and that every key-format string is one |
| JsBuiltins.Trim | aswan-dashboard.tsx:98 | `trim()` gives a prefix of what follows the leading white space, and neither of its ends is white space; TrimStart, TrimEnd and TrimEmptyIff give the full characterization |
| JsBuiltins.Join | aswan-dashboard.tsx:94 | `join(sep)`: its length is the parts' total plus one separator per gap, it begins with the first part, and the separator follows the first part when more come; KeyOfSegments gives the full value of the four-segment join |
| ApiKeys.ApiKey | aswan-dashboard.tsx:35-42 | the row record: id, name, key, status, requests, createdAt |
| ApiKeys.Status | aswan-dashboard.tsx:39 | the three status labels Active, Limited, Revoked |
| ApiKeys.IsBlankName | aswan-dashboard.tsx:98 | the `!newKeyName.trim()` guard; BlankNameIff proves it holds iff the name is all white space |
| ApiKeys.IsActive | aswan-dashboard.tsx:673 | the `status === "Active"` test the count filters by; ActiveCountBounds and ActiveCountIndices characterize the count through it |
| Dashboard.Seed | aswan-dashboard.tsx:49-74 | the three initial rows with their literal fields; SeedIds, SeedActiveCount, SeedKeysWellFormed and SeedNamesNonBlank state their properties |
| Dashboard.DatePart | aswan-dashboard.tsx:111 | `split("T")[0]` of the timestamp: the longest prefix without `T`, followed in the timestamp by `T` or by the end |
| KeyGen.GenerateRandomKey | aswan-dashboard.tsx:84-95 | the two loops return `KeyOf(draws)`: four segments, each spelling four consecutive draws through `charAt`, joined with `-`; with in-range draws the result has the key format |
| KeyGen.AlphabetIsSourceLiteral | aswan-dashboard.tsx:85 | the alphabet is exactly the string `ABCDEFGHIJKLMNOPQRSTUVWXYZ0123456789` |
| KeyGen.AlphabetIndexAt | aswan-dashboard.tsx:85 | the alphabet index decoder inverts indexing into the alphabet |
| KeyGen.AlphabetMember | aswan-dashboard.tsx:85 | a character is in the alphabet iff it is A..Z or 0..9, iff its index points back to it |
| KeyGen.AlphabetDistinct | aswan-dashboard.tsx:85 | the 36 characters are pairwise distinct and none is `-` |
| KeyGen.KeyFormatByChars | aswan-dashboard.tsx:85-94 | the key format holds iff the length is 19, there is `-` at 4, 9 and 14, and A..Z or 0..9 everywhere else |
| KeyGen.KeyChars | aswan-dashboard.tsx:85-94 | a 19-character string with hyphens at 4, 9, 14 and A..Z0..9 elsewhere has the key format (the one-way half of KeyFormatByChars) |
| KeyGen.SpellLength | aswan-dashboard.tsx:89-91 | `charAt` gives one character per draw exactly when every draw is in `[0, 36)`, and is shorter otherwise (CharAt's contract gives the empty string for an out-of-range draw) |
| KeyGen.SpellAt | aswan-dashboard.tsx:89-91 | with in-range draws, character i of the spelling is the alphabet character at draw i |
| KeyGen.KeyOfSegments | aswan-dashboard.tsx:94 | the key is segment 0, `-`, segment 1, `-`, segment 2, `-`, segment 3 |
| KeyGen.SegmentSpelling | aswan-dashboard.tsx:88-92 | with valid draws, segment i has four characters, the alphabet characters of draws 4i..4i+3 |
| KeyGen.JoinedAt | aswan-dashboard.tsx:94 | in four 4-character pieces joined with `-`, position p holds `-` at 4, 9, 14 and otherwise character p mod 5 of piece p div 5 |
| KeyGen.KeyAt | aswan-dashboard.tsx:84-95 | character p of a generated key is `-` at 4, 9 and 14 and the alphabet character of draw p - p/5 elsewhere; the key has 19 characters |
| KeyGen.KeyFormat | aswan-dashboard.tsx:84-95 | generated keys have the format; `-` occurs exactly at 4, 9 and 14; four segments of four alphabet characters |
| KeyGen.KeyLengthIff | aswan-dashboard.tsx:90 | the key has 19 characters iff every draw is in range |
| KeyGen.SegmentLengthIff | aswan-dashboard.tsx:88-92 | a segment has four characters exactly when its four draws are in range |
| KeyGen.DecodeKey | aswan-dashboard.tsx:84-95 | reading the alphabet index of each non-hyphen character gives sixteen draws |
| KeyGen.DrawPosition | aswan-dashboard.tsx:87-94 | draw i lands at key position i + i/4, which is not a hyphen position and maps back to i |
| KeyGen.PositionDraw | aswan-dashboard.tsx:87-94 | every non-hyphen position p carries draw p - p/5 |
| KeyGen.DecodeChar | aswan-dashboard.tsx:85 | a position holding alphabet character d decodes to d |
| KeyGen.DecodeEncodeAt | aswan-dashboard.tsx:84-95 | decoding a generated key recovers draw i |
| KeyGen.DecodeEncode | aswan-dashboard.tsx:84-95 | decoding a generated key recovers all the draws |
| KeyGen.DecodeAt | aswan-dashboard.tsx:84-95 | in a string of the key format, each decoded draw is in range and indexes back to its character |
| KeyGen.DecodeInRange | aswan-dashboard.tsx:84-95 | a string of the key format decodes to valid draws |
| KeyGen.EncodeDecodeAt | aswan-dashboard.tsx:84-95 | regenerating from the decoded draws reproduces character p |
| KeyGen.EncodeDecode | aswan-dashboard.tsx:84-95 | every string of the key format is the generator's output for its decoded draws |
| KeyGen.KeyOfInjective | aswan-dashboard.tsx:84-95 | distinct valid draws give distinct keys |
| JsBuiltins.TrimStart | aswan-dashboard.tsx:98 | the result is the suffix after the leading white space and starts with a non-white-space character |
| JsBuiltins.TrimEnd | aswan-dashboard.tsx:98 | the result is the prefix before the trailing white space and ends with a non-white-space character |
| JsBuiltins.TrimEmptyIff | aswan-dashboard.tsx:98 | `trim()` gives the empty string iff every character is white space |
| JsBuiltins.CharAt | aswan-dashboard.tsx:90 | `charAt(k)` gives the character at k when k is in range and the empty string otherwise |
| JsBuiltins.BeforeFirst | aswan-dashboard.tsx:111 | `split(sep)[0]` is the longest prefix without `sep`, followed in the input by `sep` or by the end |
| JsBuiltins.JoinCons | aswan-dashboard.tsx:94 | a join of two or more parts is the first part, the separator, then the join of the rest |
| JsBuiltins.JoinFour | aswan-dashboard.tsx:94 | joining four parts gives a, sep, b, sep, c, sep, d |
| JsBuiltins.Filter | aswan-dashboard.tsx:120 | `filter` keeps exactly the accepted elements and never lengthens the list |
| JsBuiltins.FilterIsSubsequence | aswan-dashboard.tsx:120 | what filter keeps stays in its original order |
| JsBuiltins.SubsequenceDropHead | aswan-dashboard.tsx:120 | a subsequence of the tail is a subsequence of the whole list |
| JsBuiltins.SubsequenceTail | aswan-dashboard.tsx:120 | dropping the first element of a subsequence leaves a subsequence |
| JsBuiltins.FilterMultiset | aswan-dashboard.tsx:120 | every accepted element keeps its multiplicity; every rejected one disappears |
| JsBuiltins.FilterConcat | aswan-dashboard.tsx:120 | filtering a concatenation is concatenating the filtered parts |
| JsBuiltins.FilterSingleton | aswan-dashboard.tsx:120 | a one-element list is kept or emptied according to its element |
| JsBuiltins.FilterDropOne | aswan-dashboard.tsx:120 | a single rejected element between two fully kept stretches is all that is removed |
| JsBuiltins.FilterAllKept | aswan-dashboard.tsx:120 | a predicate accepting every element leaves the list unchanged |
| JsBuiltins.FilterLengthIff | aswan-dashboard.tsx:120 | the length is kept iff every element is accepted |
| JsBuiltins.FilterEmptyIff | aswan-dashboard.tsx:120 | the result is empty iff no element is accepted |
| JsBuiltins.FilterPartition | aswan-dashboard.tsx:673 | the accepted and the rejected counts add up to the length |
| JsBuiltins.FilterIdempotent | aswan-dashboard.tsx:120 | filtering twice with the same predicate is filtering once |
| JsBuiltins.FilterCommute | aswan-dashboard.tsx:120 | two filters commute |
| ApiKeys.BlankNameIff | aswan-dashboard.tsx:98 | a name is rejected iff it consists of white space only, the empty name included |
| ApiKeys.AddKey | aswan-dashboard.tsx:98-114 | a blank name leaves the table unchanged; otherwise the old rows are kept in place and exactly one row `{length+1, name as typed, key, Active, 0, date}` is appended |
| ApiKeys.DeleteKey | aswan-dashboard.tsx:119-121 | the result never grows and holds exactly the rows whose id differs |
| ApiKeys.ActiveCount | aswan-dashboard.tsx:673 | the count of Active rows never exceeds the table length |
| ApiKeys.DeleteExactly | aswan-dashboard.tsx:119-121 | delete keeps the surviving rows in order, each as often as before, and removes every row with the id |
| ApiKeys.DeleteAbsent | aswan-dashboard.tsx:119-121 | deleting an id no row carries changes nothing |
| ApiKeys.DeleteShrinksIff | aswan-dashboard.tsx:119-121 | the table shrinks iff some row carries the id |
| ApiKeys.DeleteIdempotent | aswan-dashboard.tsx:119-121 | deleting the same id twice is deleting it once |
| ApiKeys.DeleteCommute | aswan-dashboard.tsx:119-121 | deletions of two ids commute |
| ApiKeys.ActiveCountBounds | aswan-dashboard.tsx:673 | the count equals the length iff every row is Active, and is 0 iff none is |
| ApiKeys.ActiveCountIndices | aswan-dashboard.tsx:673 | the count is the number of positions that hold an Active row |
| ApiKeys.ActiveIndicesSnoc | aswan-dashboard.tsx:673 | appending a row adds its position to the Active positions exactly when it is Active |
| ApiKeys.ActiveCountPartition | aswan-dashboard.tsx:673 | the Active and the non-Active counts add up to the length |
| ApiKeys.ActiveCountAdd | aswan-dashboard.tsx:98-114 | a created key raises the count by one; a blank name leaves it alone |
| ApiKeys.ActiveCountDelete | aswan-dashboard.tsx:119-121 | a delete never raises the count and keeps it when no Active row has the id |
| ApiKeys.SequentialIds | aswan-dashboard.tsx:49-74 | ids 1..n in row order are unique and are exactly the numbers 1..n |
| ApiKeys.AddKeepsSequential | aswan-dashboard.tsx:106 | adding to a table with ids 1..n keeps the ids sequential |
| ApiKeys.AddUniqueIff | aswan-dashboard.tsx:106 | adding to a table with unique ids keeps them unique iff no row has id length+1 |
| ApiKeys.SequentialSliceIds | aswan-dashboard.tsx:106 | on ids 1..n, rows lo..hi-1 carry ids lo+1..hi |
| ApiKeys.DeleteSequential | aswan-dashboard.tsx:119-121 | on ids 1..n, deleting id x removes just the row at index x-1 |
| ApiKeys.DeleteThenAddUniqueIff | aswan-dashboard.tsx:106 | from ids 1..n, deleting id x and then adding keeps ids unique iff x is not one of 1..n-1 |
| Dashboard.DatePartOfIsoString | aswan-dashboard.tsx:111 | for a timestamp whose first `T` is at position 10, the stored date is its first ten characters |
| Dashboard.HandleGenerateApiKey | aswan-dashboard.tsx:97-117 | the new table is the add of the generated key and today's date; the name field is cleared only on success; a created row has the key format |
| Dashboard.HandleDeleteApiKey | aswan-dashboard.tsx:119-121 | the new table is the delete: no row keeps the id and the survivors keep their order |
| Dashboard.SeedIds | aswan-dashboard.tsx:49-74 | the seed ids are 1, 2, 3 and unique |
| Dashboard.SeedActiveCount | aswan-dashboard.tsx:49-74 | two seed rows are Active, so the dashboard starts by showing 2 |
| Dashboard.SeedKeysWellFormed | aswan-dashboard.tsx:49-74 | every seed key string has the generated format |
| Dashboard.SeedKeyFormat | aswan-dashboard.tsx:49-74 | seed row i's key string has the generated format |
| Dashboard.SeedNamesNonBlank | aswan-dashboard.tsx:49-74 | no seed name is blank |
| Dashboard.SeedDeleteFirst | aswan-dashboard.tsx:119-121 | deleting id 1 from the seed leaves its second and third rows |
| Dashboard.DeleteKeepsFirstOfThree | aswan-dashboard.tsx:119-121 | of three rows, deleting an id carried by only the last two leaves the first |
| Dashboard.SeedDeleteThenAddRepeatsId | aswan-dashboard.tsx:106 | after deleting id 1 from the seed, the next key gets id 3 beside the seed row with id 3, and deleting id 3 removes both |

## Left out

- Rendering, navigation, the copy-to-clipboard feedback and the wallet connection: these are user interface and browser calls with no table logic.
- The 1.5-second simulated delay and the `isGeneratingKey` busy flag: they are timing and display state that do not affect the table.
- The stale-closure behaviour of `setApiKeys([...apiKeys, newKey])` after the await: the model runs each handler on the table it is given, one at a time, so it does not capture a concurrent update racing the delay.
- The displayed code samples (HMAC signing, axios, Go) and the gateway's server-side behaviour: they are text shown to the user, not logic of this component.
- `Math.random()` and `new Date()`: they are parameters, the sixteen draws and the ISO timestamp string.
- ApiKeys.ActiveCount: the card shows `.length.toString()`; the model keeps the number and leaves out the conversion to text.
- Status changes to Limited or Revoked and growth of `requests`: the component never performs them.
- JavaScript numbers: `id` and `requests` are unbounded integers, since they only ever hold small non-negative integers here.
- Strings are sequences of code points, not UTF-16 code units. Every character `trim` strips and every character the generator emits lies in the Basic Multilingual Plane, so the two agree for these operations.
