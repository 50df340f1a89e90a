# Upvote page controller: item-key compilation

The Upvote plugin for Craft CMS lets site visitors upvote, downvote, "like"
or favourite content elements. Its page controller answers the browser's
`configure` request. The request carries a list of item keys of the form
`elementId[:subKey]`. For each key the controller returns the element id, the
sub-key, the key itself, the current user's earlier vote and the element's
tally.

This project models that logic in Dafny and proves what it does:

- `php_strings.dfy` (module `PhpStrings`) holds the PHP primitives the
  controller uses, written out:
  - `explode(':', …)` / `implode(':', …)`, with their round trips.
  - The `(int)` cast of a string, with a decimal rendering as its inverse.
  - String truthiness (`""` and `"0"` are falsy).
  - An independent "split at the first colon" specification
    (`BeforeColon` / `AfterColon`), proved equal to the controller's
    explode / shift / implode sequence.
- `page_controller.dfy` (module `PageController`) holds the controller:
  - `UserVote` models `_userVote`.
  - `CompileElement` models `_compileElement`.
  - `Configure` models `actionConfigure`: a loop that appends one compiled
    entry per key.
  - Lemmas state the parsing rules and the batch behaviour.
- `wrappers.dfy` holds `Option`, which stands for PHP's `null`.

The plugin singleton the controller reads is an explicit `Env` value. It
holds the `requireLogin` setting, the logged-in and anonymous vote histories
(maps keyed by the full item key) and the tally service. The tally service is
external, so it is an uninterpreted function `(int, Option<string>) -> T`.
Vote values (`V`) and tallies (`T`) are type parameters, because their
shapes are defined elsewhere in the plugin.

Four behaviours of the code are easy to miss. The model keeps each of them:

- Keys whose element id is 0 are kept as `null` entries. They are not
  dropped, so the output has one entry per input key, in order.
- A batch that is not an array, or is empty, gets no response data
  (`None`). It does not get an empty list.
- A sub-key of `"0"` becomes `null`, like an empty one, because PHP treats
  `"0"` as falsy.
- Negative element ids are accepted, because only 0 is rejected.

## Model

| member | source | states |
|---|---|---|
| `PageController.CompileElement` | src/controllers/PageController.php:95-124 | `None` exactly when the (int) cast of the text before the first colon is 0. This holds whatever the histories and the tally service hold. Otherwise the record has that nonzero id. Its sub-key is the text after the first colon, or `None` when that text is "" or "0". It echoes the item key unchanged. Its vote is the user's vote for that key. Its tally is the tally service applied to the parsed (id, sub-key). |
| `PageController.UserVote` | src/controllers/PageController.php:129-142 | Login required: the vote is present iff the full item key is in the logged-in history, and then it is that entry. Otherwise the same holds for the anonymous history. |
| `PageController.Configure` | src/controllers/PageController.php:70-91 | No data iff the input is not an array or is empty. Otherwise exactly one entry per input key, in input order. Entry i is the compilation of key i, so rejected keys stay as `None` in place. |
| `PageController.CompileWithSubKey` | src/controllers/PageController.php:98-123 | For every nonzero id e, negative ones included, and every text k, the key "e:k" compiles to id e. Its sub-key is k verbatim, colons included, unless k is "" or "0". |
| `PageController.CompileWithoutSubKey` | src/controllers/PageController.php:108-123 | For every nonzero id e, the key "e" with no colon compiles to id e with no sub-key. |
| `PageController.NonNumericIdRejected` | src/controllers/PageController.php:101-106 | A key compiles to nothing when the text before its first colon has no digit at all. The same holds when that text, after its leading whitespace, starts with neither a digit nor a sign followed by a digit. |
| `PageController.EmbeddedDigitRejected` | src/controllers/PageController.php:98-106 | "x5:y" compiles to nothing: a digit after a leading letter does not make an id. |
| `PageController.UserVoteReadsOneEntry` | src/controllers/PageController.php:132-141 | The vote depends only on the selected history's entry at the item key. The other history and the other keys play no part. |
| `PageController.VoteLookupNotNormalised` | src/controllers/PageController.php:117-141 | "5" and "5:0" parse to the same id and sub-key. The vote is still looked up under the raw key, so the two can carry different votes. |
| `PageController.ColonsKeptInSubKey` | src/controllers/PageController.php:108-109 | "7:a:b" gets the sub-key "a:b". |
| `PageController.FalsySubKeyDropped` | src/controllers/PageController.php:111-114 | "7:" and "7:0" get no sub-key. |
| `PageController.NegativeIdAccepted` | src/controllers/PageController.php:101-106 | "-3:x" compiles, with id -3. |
| `PageController.LeadingSpaceSkipped` | src/controllers/PageController.php:101 | " 12:x" has element id 12, because the cast skips leading whitespace. |
| `PageController.InvalidIdsRejected` | src/controllers/PageController.php:98-106 | "0:x", "bogus" and "" compile to nothing. |
| `PageController.ScenarioVotedKey` | src/controllers/PageController.php:117-123 | For an anonymous user who voted on "5:color", that key compiles to id 5, sub-key "color" and that vote. |
| `PageController.ScenarioPlainKey` | src/controllers/PageController.php:108-123 | In the same setting, "5" compiles to id 5 with no sub-key and no vote. |
| `PageController.BatchScenario` | src/controllers/PageController.php:84-90 | Running `Configure` on the batch ["5:color", "5", "0:x", "bogus"], for an anonymous user who voted on "5:color", yields exactly four entries: the voted record, a record with no sub-key and no vote, then `None` twice. |
| `PageController.NoBatchScenario` | src/controllers/PageController.php:78-81 | Running `Configure` on an empty batch, or on a value that is not an array, yields no response data. |
| `PageController.ElementIdOf` | src/controllers/PageController.php:98-101 | The element id is the (int) cast of the first piece that explode yields. |
| `PageController.SubKeyOf` | src/controllers/PageController.php:111-114 | The sub-key is absent exactly when the re-joined text is "" or "0". Otherwise it is that text, unchanged and nonempty. |
| `PhpStrings.Explode` | src/controllers/PageController.php:98 | Explode yields at least one piece, and no piece contains a colon. |
| `PhpStrings.ImplodeExplode` | src/controllers/PageController.php:98-109 | Re-joining the exploded pieces with ':' gives back the original string. |
| `PhpStrings.Implode` | src/controllers/PageController.php:109 | Exploding the join of one or more colon-free pieces gives back exactly those pieces. |
| `PhpStrings.ExplodeNoColon` | src/controllers/PageController.php:98 | A string with no colon explodes into itself alone. |
| `PhpStrings.ExplodeAfterSegment` | src/controllers/PageController.php:98-101 | A colon-free segment followed by ':' becomes the first piece, the one the controller shifts off. |
| `PhpStrings.BeforeColon` | src/controllers/PageController.php:98-101 | The text before the first colon: the colon-free prefix followed by a colon or by the end of the key. |
| `PhpStrings.AfterColon` | src/controllers/PageController.php:108-109 | The text after the first colon: the key is prefix + ':' + this text when it has a colon, and this text is empty when it has none. |
| `PhpStrings.SplitSegment` | src/controllers/PageController.php:98-109 | For a colon-free a, "a:b" splits into a and b. |
| `PhpStrings.SplitAgrees` | src/controllers/PageController.php:98-109 | The first exploded piece is the text before the first colon. The re-joined remaining pieces are the text after it. |
| `PhpStrings.IntCast` | src/controllers/PageController.php:101 | A nonzero cast needs, right after the leading whitespace, a digit or a sign followed by a digit. It also needs a digit somewhere in the string. |
| `PhpStrings.SignedPrefixValue` | src/controllers/PageController.php:101 | With no leading whitespace, a nonzero number needs the text to start with a digit or with a sign followed by a digit. |
| `PhpStrings.CastOfNumeral` | src/controllers/PageController.php:101 | Whitespace, then an optional sign, then digits d, then a rest that does not start with a digit, casts to the value of d. That value is negated after '-'. So "05" gives 5, "+5" gives 5 and "5abc" gives 5. |
| `PhpStrings.SignedNumeral` | src/controllers/PageController.php:101 | With no leading whitespace, an optional sign then digits d then a non-digit rest reads as the value of d, negated after '-'. |
| `PhpStrings.UnsignedPrefix` | src/controllers/PageController.php:101 | Text that starts with a digit reads as the value of its leading digit run. |
| `PhpStrings.SignPrefix` | src/controllers/PageController.php:101 | After a '-' or a '+', the digit run that follows is read, negated after '-'. |
| `PhpStrings.CastOfNonNumeral` | src/controllers/PageController.php:101 | Whitespace, then a character that is neither a digit nor a sign, casts to 0 whatever digits come later. So "x5", "id42" and " #3" give 0. |
| `PhpStrings.SkipSpaceOver` | src/controllers/PageController.php:101 | The cast skips a whole run of leading whitespace, and stops at the first other character. |
| `PhpStrings.DigitPrefixOver` | src/controllers/PageController.php:101 | The cast reads a digit run up to the first non-digit that follows it. |
| `PhpStrings.CastRoundTrip` | src/controllers/PageController.php:101 | The (int) cast reads back every integer from its decimal rendering, negative ones included. |

## Left out

- `actionPreload` and `actionCsrf` are not modelled. They pass through a settings flag and a framework CSRF token and have no logic of their own.
- Reading `ids[]` from the request body, JSON encoding through `asJson`, `allowAnonymous` and routing are host-framework I/O. `Configure` takes the posted value as `Option<seq<string>>` (`None` = not an array) and returns the response data. A "bail" with no response body is `None`.
- How tallies are computed and how the two vote histories are loaded is not part of this model. Those services are external. The tally is an uninterpreted function and the histories are given maps. A history that PHP leaves unset (for example, for a visitor who is not logged in) is modelled as an empty map.
- `PhpStrings.IntCast` reads only leading whitespace (space, \t, \n, \r, \v, \f), an optional sign and a run of decimal digits. It does not model:
  - PHP's exponent forms (`"1e3"` casts to 1000 in PHP; here it casts to 1).
  - PHP's saturation at the 64-bit integer bounds (ids are unbounded here).
  - Fractional parts. PHP reads a numeral with a '.' as a correctly rounded double and then truncates it. The model reads only the leading digit run. The two agree on "5.9", which gives 5. They differ where rounding crosses an integer. "0.99999999999999999999" is 1.0 in PHP, so the key "0.99999999999999999999:x" gives a record with id 1 in PHP but `None` here. Likewise "9007199254740993.0" casts to 9007199254740992 in PHP.
  - Casts of values that are not strings.
- Strings are modelled as sequences of Unicode characters; PHP strings are byte strings. A key that is not valid UTF-8 cannot be written in the model. ':', the decimal digits and the whitespace the cast skips are all single ASCII bytes, so splitting, casting and the history lookup behave the same for every key that can be written.
- `PageController.UserVote` assumes history entries are never `null`. PHP's `$history[$itemKey] ?? null` also gives `null` for a key that is present with a `null` value; the model would return that entry as present. The histories hold recorded votes, so such an entry does not arise.
- Elements of `ids[]` that are not strings are not modelled. In PHP, `explode` would fail on a nested array. An associative `ids[]` array is modelled by its values in order, which is what `foreach` visits.
- PHP's conversion of numeric-string array keys to integers is not modelled. It applies equally when a history is stored and when it is read, so a map keyed by the raw item key gives the same lookups.
