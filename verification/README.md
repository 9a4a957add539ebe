# URL generator with random parameters — a Dafny model

The system takes a URL and a configuration. It returns the URL's base, followed by `?` and a query. The query holds the URL's own parameters plus a batch of randomly named parameters with random values. Two classes do the work, and this project models both:

- **`RandomConfigDTO`** turns a loose attribute bag into eight validated settings:
  - the key alphabet and the value alphabet;
  - the key-length bounds;
  - the attempt limit per key;
  - the value length;
  - the bounds on the batch size.

  A scalar that is missing or not positive falls back to its default. The two bound pairs are taken over only when both members are positive and ordered; otherwise both keep their defaults.
- **`UrlGeneratorModel`**:
  - Its constructor splits the URL at the first `?`, decodes the query and lower-cases the keys.
  - `generateUrl` builds a batch of random parameters (`generateRandomParameters` with `getRandomParameterKey` and `getRandomParameterValue`). It merges the URL's own parameters over the batch with `array_merge`, so they win every clash, then writes `base + "?" + http_build_query(...)`.

## How the model is built

- `text.dfy` (`Text`): the string operations the code relies on.
  - ASCII lower-casing; `explode` on the first delimiter (`Before`/`After`).
  - `explode`/`implode` (`Split`/`Join`); `substr($s, 0, $n)` (`Take`).
  - `intval` (`IntVal`) and `(string)` of an integer (`DecimalString`).
- `ordered_map.dfy` (`OrderedMap`): PHP arrays with string keys, as an insertion-ordered list of entries (`Params`).
  - `Put` is `$a[$k] = $v`.
  - `Merge` is `array_merge`.
  - `Assemble` is what `parse_str` and `array_change_key_case` do with their pairs: assign them in order into an empty array.
- `random_config.dfy` (`RandomConfig`): the configuration object.
  - An attribute is PHP `null`, an integer or a string (`Raw`).
  - The accessors are the fields of the `Config` datatype.
- `query.dfy` (`Query`):
  - `QueryOf`: the query component of a URL (what `parse_url` puts under `query`).
  - `ParseQuery`: a simplified `parse_str` that splits on `&` and at the first `=`, where the last occurrence wins.
  - `Serialize`: `http_build_query` without percent-encoding.
- `url_generator.dfy` (`UrlGenerator`): the generator.
  - All randomness is explicit arguments: a `KeyDraw` per key attempt, a shuffled value alphabet per batch slot, and the batch size (`Draws`).
  - Their constraints are preconditions: each length is within the bounds, and each shuffled string is a permutation of its alphabet.
  - The `Search` argument selects the key search the code implements (`AsWritten`) or the one its loop evidently intends (`Intended`; see Findings).

Two behaviours of the code worth noting:

- **Collision check.** The collision check against existing keys is an exact, case-sensitive `array_key_exists` on the lower-cased keys. Random keys are not lower-cased (`Fresh`).
- **Batch size.** A failed key search ends the batch, so a batch can hold fewer than the chosen number of parameters. With a fixed batch size of two it holds at most two (`SmallBagBatch`).

## Model

| member | source | states |
|---|---|---|
| RandomConfig.NewConfig | DTO/RandomConfigDTO.php:32-64 | Construction always yields a valid configuration: all numbers at least 1 and both pairs ordered. Each alphabet is the supplied value when one is given, even an empty one, and the default otherwise. Value length and attempt limit are the supplied `intval` when positive, else 8 and 5. Each bound pair is taken over exactly when both are positive and ordered; otherwise the key lengths stay (1, 1) and the batch bounds (5, 15). |
| RandomConfig.EmptyBagDefaults | DTO/RandomConfigDTO.php:19-43 | An empty bag gives the default configuration: alphabets a–z and a–z0–9, key lengths 1..1, 5 attempts, value length 8, batch size 5..15. |
| RandomConfig.AccessorsRebuild | DTO/RandomConfigDTO.php:71-136 | The accessors return the stored fields unchanged. Handing them back to the constructor rebuilds the same configuration exactly when it is valid. |
| RandomConfig.DecimalTextReadsAsNumber | DTO/RandomConfigDTO.php:40-62 | Supplying an integer's decimal text configures exactly as supplying the integer. |
| Text.IntValOfDecimal | DTO/RandomConfigDTO.php:40 | `intval` reads back every integer that `(string)` prints. |
| Text.Lower | Models/UrlGeneratorModel.php:42 | Lower-casing keeps the length, maps A–Z to a–z, keeps every other character, and leaves no upper-case letter. |
| Text.LowerOfLowerCase | Models/UrlGeneratorModel.php:42 | Lower-casing a lower-case key changes nothing, so it is idempotent. |
| Text.BeforeAfterJoined | Models/UrlGeneratorModel.php:34-35 | The first piece of `explode("?", x . "?" . y)` is `x` when `x` has no `?`, and the rest is `y`. |
| Text.Split | Models/UrlGeneratorModel.php:39 | Splitting on `&` yields at least one piece, no piece holds `&`, and joining the pieces gives the string back. |
| Text.SplitJoin | Models/UrlGeneratorModel.php:58 | Joining pieces free of `&` and splitting again gives the same pieces. |
| Text.Take | Models/UrlGeneratorModel.php:80 | `substr($s, 0, $n)` is a prefix of `s` whose length is the smaller of `n` and the length of `s`; it uses no character more often than `s` does. |
| Query.QueryOf | Models/UrlGeneratorModel.php:38-39 | The query is the text after the first `?` and before the first `#`. It is empty when no `?` comes before the first `#`, and it never holds `#`. |
| Query.QueryOfJoined | Models/UrlGeneratorModel.php:38-39 | The query of `base . "?" . q` is `q` when neither part holds `#` and `base` holds no `?`. |
| Query.ParseQuery | Models/UrlGeneratorModel.php:39 | Decoding yields unique, non-empty keys free of `=` and `&`. It introduces no `#` that the query lacks. |
| Query.ParseSerialize | Models/UrlGeneratorModel.php:58 | Decoding the serialised form of literal entries with unique keys gives back the same entries in the same order. |
| OrderedMap.Put | Models/UrlGeneratorModel.php:124 | An assignment adds at most one entry. Every entry afterwards is an old one or the assigned pair. |
| OrderedMap.PutAt | Models/UrlGeneratorModel.php:124 | An assignment replaces the entry at the key's first position, or appends when the key is absent. |
| OrderedMap.PutKeys | Models/UrlGeneratorModel.php:124 | The key set gains the key. The array grows by one exactly when the key was new. |
| OrderedMap.PutValues | Models/UrlGeneratorModel.php:124 | Afterwards the key maps to the new value, and every other key keeps its value. |
| OrderedMap.PutOrder | Models/UrlGeneratorModel.php:124 | A present key keeps every key in place. A new key is appended last. |
| OrderedMap.PutKeepsUnique | Models/UrlGeneratorModel.php:124 | Assignment keeps keys unique. |
| OrderedMap.Merge | Models/UrlGeneratorModel.php:55 | `array_merge` keeps keys unique. Its keys are exactly the union of both key sets, and every entry comes from one side. |
| OrderedMap.MergeLastWins | Models/UrlGeneratorModel.php:55 | A key of the second array ends with the value of its last occurrence there. |
| OrderedMap.MergeKeepsUnmentioned | Models/UrlGeneratorModel.php:55 | A key of the first array that the second does not mention keeps its value. |
| OrderedMap.MergeOrder | Models/UrlGeneratorModel.php:55 | The merged keys are the first array's keys in order, then the second array's new keys in order. |
| OrderedMap.AssembleUnique | Models/UrlGeneratorModel.php:39 | Assigning pairs with unique keys into an empty array gives them back unchanged. |
| UrlGenerator.LowerKeys | Models/UrlGeneratorModel.php:42 | `array_change_key_case` keeps keys unique and all lower-case. Its key set is exactly the lower-cased input keys, and it keeps entries literal. |
| UrlGenerator.LowerKeysLaterWins | Models/UrlGeneratorModel.php:42 | When several keys fold to the same lower-case key, the value of the last one is kept. |
| UrlGenerator.NewGenerator | Models/UrlGeneratorModel.php:30-43 | The base is the prefix before the first `?`, or the whole URL, and never holds `?`. The existing keys are exactly the lower-cased decoded keys. The generator is well formed for a valid configuration. |
| UrlGenerator.Candidate | Models/UrlGeneratorModel.php:79-80 | A candidate takes the drawn length, or the minimum when the bounds coincide. It is capped by the alphabet size, uses each alphabet character at most as often as the alphabet does, and is empty only for an empty alphabet. It is the prefix of that attempt's shuffled alphabet, so together with its length it is exactly `substr(str_shuffle(...), 0, length)`. |
| UrlGenerator.FirstFresh | Models/UrlGeneratorModel.php:82-87 | The loop's exit point is the first candidate that collides with neither parameter array, or the end of the range. |
| UrlGenerator.KeyAsWritten | Models/UrlGeneratorModel.php:70-93 | The key is empty or one of the candidates. With a limit of at least 2, a non-empty key collides with neither array and is the first fresh candidate, found among the first `limit - 2`. |
| UrlGenerator.RandomParameterKey | Models/UrlGeneratorModel.php:70-93 | The loop, counter for counter, returns `KeyAsWritten`. Limit 1 returns the first candidate unchecked, and limit 2 always returns `""`. For a larger limit, when the first `limit - 2` candidates are all non-empty, the key is non-empty exactly when one of them is fresh. |
| UrlGenerator.KeyIntended | Models/UrlGeneratorModel.php:70-93 | The intended search returns the first fresh candidate among the first `limit` candidates. When those candidates are non-empty, it returns `""` exactly when none of them is fresh. |
| UrlGenerator.KeyAsWrittenIgnoresLastDraw | Models/UrlGeneratorModel.php:78-91 | At most `max(1, limit - 1)` candidates are drawn. From a limit of 2 on, the result depends only on the first `limit - 2` candidates, so the last one drawn never affects it; at limit 1 it depends on the first candidate alone. |
| UrlGenerator.AsWrittenAgreesWhenFound | Models/UrlGeneratorModel.php:89-91 | With a limit of 2 or more, whenever the code finds a key the intended search finds the same one. At limit 1 they can differ: the code returns a colliding first candidate that the intended search rejects. |
| UrlGenerator.AsWrittenDiscardsFreshLastCandidate | Models/UrlGeneratorModel.php:86-91 | Limit 3: a fresh second candidate is discarded, while the intended search returns it. |
| UrlGenerator.AsWrittenTwoAttemptsFindNothing | Models/UrlGeneratorModel.php:81-91 | Limit 2 yields `""` even with no parameters at all. |
| UrlGenerator.AsWrittenOneAttemptCollides | Models/UrlGeneratorModel.php:82-89 | Limit 1 returns a key that an existing parameter already has. |
| UrlGenerator.SearchKey | Models/UrlGeneratorModel.php:116 | A slot's key is empty or a candidate. It is fresh whenever collisions are checked. |
| UrlGenerator.RandomParameterValue | Models/UrlGeneratorModel.php:100-102 | A value is as long as the smaller of `valueLength` and the alphabet's size, and uses each alphabet character at most as often as the alphabet does. It is the prefix of the shuffled value alphabet, which with its length fixes it exactly. |
| UrlGenerator.SlotSearchKeys | Models/UrlGeneratorModel.php:116-121 | Each slot either finds nothing or a non-empty candidate of its own. When collisions are checked, that candidate is not an existing key. |
| UrlGenerator.FillUnique | Models/UrlGeneratorModel.php:115-125 | The batch loop keeps the keys of the batch unique. |
| UrlGenerator.FillSize | Models/UrlGeneratorModel.php:115-125 | The batch loop adds at most one entry per slot. |
| UrlGenerator.FillKeys | Models/UrlGeneratorModel.php:115-125 | Every key the batch loop adds is one its searches can return. |
| UrlGenerator.FillValues | Models/UrlGeneratorModel.php:123-124 | Every value the batch loop adds is a slot's value. |
| UrlGenerator.SlotStep | Models/UrlGeneratorModel.php:116-124 | An empty key ends the batch, and any other key is assigned. When collisions are checked, the key is new and the batch grows by one. |
| UrlGenerator.RandomParameters | Models/UrlGeneratorModel.php:109-128 | The batch size lies within the bounds and equals the minimum when they coincide. The batch has at most that many entries and unique keys. Every key is non-empty with the configured shape, every value has the configured shape, and no key is an existing one when collisions are checked. |
| UrlGenerator.FillSlots | Models/UrlGeneratorModel.php:115-125 | The `for` loop computes the batch. When collisions are checked, a short batch stopped at the slot whose search against the finished batch found nothing. |
| UrlGenerator.GenerateRandomParameters | Models/UrlGeneratorModel.php:109-128 | The method returns the batch, at most `paramsMaxAmount` entries of the configured shapes. When collisions are checked, a short batch ended at a failed search. |
| UrlGenerator.FixedBoundsBatch | Models/UrlGeneratorModel.php:109-128 | With fixed bounds the batch has at most the fixed size. Every key has exactly the fixed length and every value exactly the value length, each capped by its alphabet. |
| UrlGenerator.MergedParameters | Models/UrlGeneratorModel.php:55 | Existing parameters win: each keeps its value. A random parameter survives only under a new key. The keys are exactly both key sets, with the random keys first in order, then the remaining existing keys. This covers string keys only: existing keys are not integer-like and the key alphabet has no digits. |
| UrlGenerator.GenerateUrl | Models/UrlGeneratorModel.php:53-62 | The output is the base, then `?` even for an empty query, then the query. The text before its first `?` is the base, and constructing from the output gives the same base. |
| UrlGenerator.GeneratedQueryDecodes | Models/UrlGeneratorModel.php:53-62 | For a base without `#` and alphabets and existing entries free of the query delimiters, the output's query decodes to exactly the merged parameters. Every existing parameter comes back with its original value. |
| UrlGenerator.FragmentBaseHidesQuery | Models/UrlGeneratorModel.php:34-35 | When the base holds `#` (an anchor URL, whose fragment the constructor keeps in the base), the generated query lands inside the fragment, so the output URL's query is empty. |
| UrlGenerator.SmallBagConfig | DTO/RandomConfigDTO.php:32-64 | `SmallBag`, which sets every option but the attempt limit, gives that configuration with the default 5 attempts. |
| UrlGenerator.SingleParameterConstruction | Models/UrlGeneratorModel.php:30-43 | Constructing from `base?key=value` keeps `base` and reads exactly the one parameter `(key, value)`, for a base without `?` or `#`, a non-empty lower-case key free of `&`, `=` and `#`, and a value free of `&` and `#`. An upper-case key would come back lower-cased. |
| UrlGenerator.SmallBagBatch | Models/UrlGeneratorModel.php:109-128 | Under `SmallBag` (batch size 2..2, keys of length 3..3 from `xyz`, values of length 2 from `01`) a batch adds at most two parameters. Each key is three characters from `xyz` and each value two characters from `01`. |

## Left out

- Percent-encoding in `http_build_query` and percent-decoding in `parse_str` are not modelled: keys and values travel literally. The round-trip lemmas therefore require entries free of `&`, `=` (in keys) and `#`.
- `parse_str` details are not modelled: `a[]=` array syntax, `.` and space in keys becoming `_`, and `+` as a space. Pieces with an empty key are dropped, as PHP does.
- `parse_url` is reduced to its query component: the text after the first `?` and before the first `#`. Its failure on seriously malformed URLs, which makes the query empty, is not modelled.
- `intval` is modelled on an optional sign and a run of decimal digits. Leading whitespace, other bases, 64-bit saturation and the coercion of floats, booleans and arrays are not modelled. Nor is exponent or decimal notation: PHP 7.1 and later read `"2e1"` as 20 and `"1.5e3"` as 1500, while `IntVal` reads them as 2 and 1, so such a string in the attribute bag configures differently here. An attribute is null, an integer or a string. Assigning an integer to a string property gives its decimal text.
- PHP turns integer-like string keys into integer keys, and `array_merge` renumbers them. `MergedParameters`, `GenerateUrl`, `GeneratedQueryDecodes` and `FragmentBaseHidesQuery` therefore require existing keys that are not integer-like and a key alphabet without digits. The batch itself treats `"0"` as `empty()`, as the code does.
- The distributions of `rand` and `str_shuffle` are not modelled. The draws are arguments constrained only by their ranges. `str_shuffle` works on bytes, while the model shuffles characters.
- The web entry point, the controller and the template are not modelled: they only read the form, call the model and print.
- UrlGenerator.GeneratedQueryDecodes: requires a base without `#`. The constructor keeps a fragment in the base, so for an anchor URL such as `http://x/page#top` the generated query sits in the fragment and reads back as empty (`FragmentBaseHidesQuery`).
- UrlGenerator.FillSlots: the stopping property is stated only when collisions are checked. With the code's limit of 1, a colliding key overwrites an entry instead of appending, so a short batch does not by itself show where it stopped. The stopping rule itself is the definition of `Fill`.
- UrlGenerator.SmallBagBatch: states at most two random parameters, because the code guarantees no more. Whether both key searches succeed depends on the draws.

## Findings

| source | as written | input that shows it | evidently intended | confidence | as-written member | corrected member |
|---|---|---|---|---|---|---|
| Models/UrlGeneratorModel.php:78-91 | The counter starts at 1 and is raised after each draw. The loop runs while the key collides and the counter is below the limit, and the key is dropped whenever the counter ends equal to the limit. So a fresh key drawn on the last permitted pass is thrown away, limit 2 never yields a key, and limit 1 returns the first key unchecked. | Limit 3, existing key `a`, candidates `a`, `b`, `c`: the code returns `""` although `b` is fresh. Limit 2 with no parameters returns `""`. Limit 1 with existing key `a` and candidate `a` returns `a`. | Try up to `limit` candidates, return the first fresh one, and return `""` only when none is fresh. | high; not executed | UrlGenerator.KeyAsWritten (loop: UrlGenerator.RandomParameterKey; inputs: UrlGenerator.AsWrittenDiscardsFreshLastCandidate, UrlGenerator.AsWrittenTwoAttemptsFindNothing, UrlGenerator.AsWrittenOneAttemptCollides) | UrlGenerator.KeyIntended (agreement: UrlGenerator.AsWrittenAgreesWhenFound) |

The batch and the URL take a `Search` argument, so every batch property above holds for both searches. Properties about collision freedom hold for the intended search at every limit, and for the code's search at limits of 2 and above.
