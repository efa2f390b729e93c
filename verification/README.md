# zaphyr utils — a Dafny model of the in-memory helpers

`zaphyr-org/utils` is a set of static PHP helper classes. This project models the
helpers that work on in-memory values only, as pure functions over immutable data:

- `Arr`: the dot-path accessor over nested PHP arrays. It covers `exists`, `get`,
  `has`, `set`, `add`, `forget`, `except`, `first`, `last`, `where` and `only`.
- `Str`: prefix, suffix and substring tests, `insert`, `limit`, `toArray`, `toBool`,
  `equals`, `escape` (with and without double encoding), and the final filter steps of
  `toAscii` and `slug`.
- `Math`: `ordinal`, `faculty`, `combinations`, `min`, `max`, `isInteger`, `isFloat`,
  the range checks, and `isEven`/`isOdd` on integers.
- `Filter`: `alpha`, `alphanum`, `base64`, `digits` and `int`.
- `HTML`: `attributeElement` and `attributes`.
- `Form`: the decision rules of `open`, `getMethod`, `getAppendage`, `getIdAttribute`,
  `label`/`close`, `formatLabel`, `input`/`hidden`, the textarea sizes,
  `getSelectedValue` and `isAssocArray`.
  - The label registry (`Form::$labels`) is explicit state. `label` and `close` return
    the new registry next to their markup, and every call that reads it takes it as an
    argument.
- `Template::render`, with the template file's contents given as an optional string.
- `ClassFinder::getClassBasename`.

## Modules

The modules follow the PHP classes, plus three support modules:

- `Wrappers`: `Option` and `Result`.
- `Text`: characters, ASCII case mapping, `explode`/`implode`/`str_replace`, and
  decimal integer texts.
- `Php`: PHP values and ordered arrays.
  - An array is a sequence of `Entry(key, value)`.
  - Keys are `IntKey | StrKey`. A canonical decimal string designates the integer key,
    as the engine stores it.
  - The module also has `is_numeric`, `(string)` and `(bool)` conversions, and
    `$a[k] = v`, `unset` and `$a[] = v`.

An operation that PHP ends with a `TypeError` or an exception returns `Failure(…)`. The
model never excludes such an input by a precondition.

## Model

| member | source | states |
|---|---|---|
| Php.KeyOf | src/Arr.php:48-52 | A string offset designates an integer key exactly when it is a canonical decimal integer within the 64-bit range, and the key's text gives the string back. `"12"` and `12` are the same key, while `"9223372036854775808"` stays a string key. |
| Php.Lookup | src/Arr.php:30-33 | A lookup finds a value exactly when the key is present, and the value found is the one stored under that key. |
| Php.Put | src/Arr.php:51-57 | `$a[$k] = $v`: afterwards `$k` holds `$v` and every other key keeps its value. A new key goes last; an existing key keeps its position. |
| Php.Remove | src/Arr.php:234 | `unset($a[$k])` removes `$k`, leaves every other key as it was, and changes nothing when `$k` is absent. |
| Php.Push | src/Arr.php:54-55 | `$a[] = $v` appends the value under a fresh integer key: one past the largest integer key, or 0. |
| Php.PutWellFormed | src/Arr.php:57 | Assigning keeps an array's keys distinct and normal. |
| Php.IntTextIsNumeric | src/Math.php:206 | The text of every integer is numeric. |
| Text.Split | src/Arr.php:48 | `explode` always yields at least one piece. |
| Text.JoinOfSplit | src/Arr.php:48 | Imploding the pieces of an `explode` with the same separator gives back the text. |
| Text.StrReplaceChar | src/ClassFinder.php:40 | `str_replace` of one character by another is a character-by-character map. |
| Text.IntToStringCanonical | src/Math.php:206 | `(string)` of an int is a canonical decimal integer that parses back to the int. |
| Text.CanonicalRoundTrip | src/Math.php:206 | A canonical decimal integer is the `(string)` of its own value. |
| Text.KeepComplete | src/Filter.php:19 | Removing every character outside a class keeps every character inside it. |
| Arr.Exists | src/Arr.php:30-33 | `exists` is true exactly when the key is present, whatever value it holds. |
| Arr.Segments | src/Arr.php:96 | A dotted key walks one segment per piece of `explode('.', key)`, each as the key that piece designates. |
| Arr.Find | src/Arr.php:92-104 | A key present literally, dots and all, wins. Otherwise the result is the walk through the segments, which fails at the first missing segment or non-array value. |
| Arr.Get | src/Arr.php:86-105 | A null key returns the whole array. A literal key returns its value before any splitting. Any other key returns what the walk over its dot-separated segments reaches, or the default when the walk stops. |
| Arr.GetHasAgree | src/Arr.php:86-105 | `get` returns the default when `has` is false. When `has` is true, `get` does not depend on the default. |
| Arr.Has | src/Arr.php:157-182 | False for an empty key list. Otherwise true exactly when every key resolves, literally or by a segment walk. |
| Arr.HasConcat | src/Arr.php:166-181 | Checking two lists of keys together is checking each list and taking the conjunction. |
| Arr.HasOffsets | src/Arr.php:159-181 | Over string keys, the loop answers whether every key resolves. The first unresolved key ends it with false. |
| Arr.Set | src/Arr.php:42-61 | An array key with a null value replaces the whole array. A path succeeds exactly when every intermediate is absent, null, false or an array. On success: the returned array is the innermost container the path reaches in the new root. A non-null value sits under the last segment, with that container's other keys as before. A null value appends the whole path string to that container. Top-level keys other than the first segment are unchanged. |
| Arr.SetPath | src/Arr.php:48-58 | The path loop of `set`, as a statement about the write: when it succeeds, where it returns, what it stores, and that the siblings are untouched. |
| Arr.WriteSucceeds | src/Arr.php:50-52 | Descending through `$array = &$array[$key]` fails exactly when some intermediate cannot act as an array. |
| Arr.WriteReaches | src/Arr.php:50-57 | The array the loop finally writes to is what the new root holds along all but the last segment. |
| Arr.WriteSiblings | src/Arr.php:50-57 | A write through a path changes only the top-level key of its first segment. |
| Arr.SetVivifies | src/Arr.php:50-52 | After a successful `set`, every proper prefix of the path leads to an array: missing intermediates were created. |
| Arr.SetThenGet | src/Arr.php:48-58 | Round trip: with a non-null value, a clear path and no literal dotted key shadowing it, `get` of the path after `set` gives the value. |
| Arr.SetWalks | src/Arr.php:48-58 | After `set` of a non-null value through a clear path, walking the path reaches the value. |
| Arr.Add | src/Arr.php:70-77 | Nothing changes when the key already resolves. Otherwise `add` is `set` and yields the new root. |
| Arr.AddIdempotent | src/Arr.php:70-77 | Adding the same key and value a second time changes nothing. |
| Arr.UnsetIn | src/Arr.php:234 | `unset` on an array removes the key, and on null or `false` leaves the value as it is. On any other value it is an error. |
| Arr.ReplaceAt | src/Arr.php:224-234 | Writing back through the references `forget` holds puts the new value at the end of the path and leaves the other top-level keys alone. |
| Arr.ReplaceSame | src/Arr.php:224-234 | Writing back what a path already holds changes nothing. |
| Arr.ForgetOne | src/Arr.php:214-235 | One key, from the root. A literal key is unset and nothing else changes. Otherwise, when a segment before the last is missing, nothing changes. When the walk reaches null or `false`, nothing changes; when it reaches an array, the last segment is removed from it, with the other top-level keys kept; any other value is an error. |
| Arr.Forget | src/Arr.php:210-236 | An empty key list changes nothing, and one key is `ForgetOne`. The corrected batch applies `ForgetOne` from the root for each key in turn. |
| Arr.Except | src/Arr.php:244-249 | `except` runs `forget` as written on a copy. An empty list returns the input. A batch of dot-free keys gives the same result as the corrected batch `Arr.Forget`, and none of its keys is left at the top level. |
| Arr.ForgetDotFree | src/Arr.php:210-236 | After the corrected batch (`Arr.Forget`), no dot-free key of the batch is left at the top level. |
| Arr.ForgetOneRemoves | src/Arr.php:214-235 | After `forget` of a key that is not a dotted literal, the key no longer resolves. |
| Arr.ForgetKeepsAbsent | src/Arr.php:210-236 | The corrected batch (`Arr.Forget`) never brings a top-level key into existence. |
| Arr.ForgetOneKeepsAbsent | src/Arr.php:214-235 | The same, for one key. |
| Arr.ForgetOneIdempotent | src/Arr.php:214-235 | Forgetting a key twice is forgetting it once. |
| Arr.Reach | src/Arr.php:224-232 | How far the walk of `forget` gets: the number of segments that resolve before the first one that does not. |
| Arr.ForgetAsWritten | src/Arr.php:210-236 | `forget` as written, with the literal check at line 216 made against the container that `$array` was last bound to. An empty key list changes nothing. |
| Arr.ForgetAgreesWithoutDots | src/Arr.php:216-222 | For keys without dots the code as written and the corrected batch agree. |
| Arr.ForgetAsWrittenDotFree | src/Arr.php:210-236 | For a batch of dot-free keys, `forget` as written leaves none of the keys at the top level and brings no missing top-level key into existence. |
| Arr.ForgetLeaksBinding | src/Arr.php:216-228 | A concrete batch on which the code as written removes a nested key the caller never named. |
| Arr.FirstMatch | src/Arr.php:123-130 | The position the loop of `first` stops at: the first accepted entry, or none when no entry is accepted. |
| Arr.First | src/Arr.php:114-133 | Without a callback: the first value, or the default for an empty array. With one: the value of the first entry the callback accepts, or the default. |
| Arr.Last | src/Arr.php:142-149 | `last` is `first` over the array reversed with keys kept. It gives the last value, or the value of the last accepted entry, or the default. |
| Arr.Filter | src/Arr.php:192 | `array_filter` with both value and key keeps the accepted entries, unchanged, and nothing else. |
| Arr.FilterInOrder | src/Arr.php:192 | `array_filter` keeps the input order: filtering a concatenation filters each part and joins the results. |
| Arr.FilterSingle | src/Arr.php:192 | A single entry is kept exactly when it is accepted. Together with `Arr.FilterInOrder` this fixes the result as the accepted entries in input order. |
| Arr.FilterWellFormed | src/Arr.php:192 | Filtering keeps keys distinct. |
| Arr.FilterLookup | src/Arr.php:192 | A key survives filtering with its original value exactly when its entry is accepted. |
| Arr.Where | src/Arr.php:190-193 | `where` keeps exactly the entries the callback accepts, with their original keys. |
| Arr.WhereLookup | src/Arr.php:190-193 | Key by key: a key is kept with its value when its value and key are accepted, and is otherwise gone. |
| Arr.Wanted | src/Arr.php:203 | The keys `only` asks for, as the array keys they designate. |
| Arr.Only | src/Arr.php:201-204 | `only` keeps exactly the entries whose key was asked for, with their original keys. |
| Arr.WhereOnlyInOrder | src/Arr.php:190-204 | `where` and `only` keep the array's order: a concatenation is treated part by part, and a single entry is kept exactly when it is accepted or its key was asked for. |
| Arr.OnlyLookup | src/Arr.php:201-204 | Key by key: an asked-for key keeps its value, and every other key is gone. |
| Str.SubString | src/Str.php:563-566 | `mb_substr` within bounds is the slice from the start for the length, or to the end. |
| Str.ToArray | src/Str.php:160-172 | One piece per character, each that character alone. The pieces concatenate to the input. |
| Str.StripWhitespace | src/Str.php:419-422 | No whitespace is left and every other character of the input is kept. Text without whitespace is unchanged. |
| Str.StripWhitespaceInOrder | src/Str.php:419-422 | Stripping keeps order: a concatenation is stripped part by part, and a single character is kept exactly when it is not whitespace. |
| Str.ToBool | src/Str.php:179-199 | `true`, `1`, `on` and `yes` give true in any case. `false`, `0`, `off` and `no` give false. Any other text gives the truthiness of its lower-cased text with whitespace stripped. |
| Str.ToBoolCaseInsensitive | src/Str.php:181 | `toBool` does not depend on letter case. |
| Str.ToBoolBlank | src/Str.php:198 | A whitespace-only string, the empty string included, is false. |
| Str.BeginsWith | src/Str.php:208-217 | True exactly when some non-empty needle is a prefix, case-folded when not case-sensitive. |
| Str.EndsWith | src/Str.php:226-237 | True exactly when some non-empty needle is a suffix, case-folded when not case-sensitive. |
| Str.Contains | src/Str.php:246-255 | True exactly when some non-empty needle occurs in the haystack. |
| Str.ContainsAll | src/Str.php:264-273 | The conjunction over the needles of `contains` with that needle alone. |
| Str.EmptyNeedleNeverMatches | src/Str.php:211 | An empty needle never matches, so `containsAll(h, [''])` is false. |
| Str.OneNeedle | src/Str.php:208-255 | With one needle, each test is the prefix, suffix or substring relation itself. |
| Str.PrefixSuffixContained | src/Str.php:208-255 | A needle the haystack begins or ends with is contained in it. |
| Str.CaseSensitiveImpliesInsensitive | src/Str.php:576-604 | A case-sensitive match is also a case-insensitive one. |
| Str.Insert | src/Str.php:431-443 | An index past the end leaves the string unchanged. Otherwise the string is cut at the index (counted from the end when negative) and the substring goes in between. |
| Str.Limit | src/Str.php:326-335 | A length of at least the string's length returns it unchanged. Otherwise the first `length` characters, right-trimmed, are followed by `append`. |
| Str.Equals | src/Str.php:452-459 | Case-sensitive: equality. Otherwise equality character by character after ASCII lower-casing. |
| Str.EqualsEquivalence | src/Str.php:452-459 | Case-insensitive equality is an equivalence that contains case-sensitive equality and ignores upper-casing. |
| Str.Escape | src/Str.php:478-481 | `htmlspecialchars` with `ENT_QUOTES` leaves no `<`, `>`, `"` or `'` and never shortens the text. |
| Str.UnescapeEscape | src/Str.php:478-481 | Escaping loses nothing: decoding the five entities gives the text back. |
| Str.EscapePlain | src/Str.php:478-481 | Text without special characters is unchanged. |
| Str.EntityLength | src/Str.php:478-481 | An entity reference is `&`, then letters, digits or `#`, then `;`. |
| Str.EscapeKeepingEntities | src/Str.php:478-481 | Escaping without double encoding leaves no `<`, `>`, `"` or `'` either. |
| Str.EscapeKeepingPlain | src/Str.php:478-481 | Without `&` in the text, both escapes agree. |
| Str.EscapeKeepingSettled | src/Str.php:478-481 | Text made only of entities and plain characters is unchanged. |
| Str.EscapeKeepingSettles | src/Str.php:478-481 | Its result is always such text. |
| Str.EscapeKeepingIdempotent | src/Str.php:478-481 | Escaping without double encoding twice is escaping once. |
| Str.ToAscii | src/Str.php:146-153 | Only printable ASCII (0x20-0x7E) is left. A transliteration that already yields printable ASCII is kept as it is. |
| Str.ReplaceRuns | src/Str.php:505 | After the replacement only letters, digits, `-` and the delimiter are left, and text made of those is unchanged. |
| Str.TrimChar | src/Str.php:508 | `trim` by the delimiter leaves no delimiter at either end, and text with none there is unchanged. |
| Str.Collapse | src/Str.php:511 | Runs of the delimiter are collapsed: no doubled delimiter is left, the ends are kept, and only characters of the input appear. |
| Str.CollapseSingle | src/Str.php:511 | Text without doubled delimiters is unchanged. |
| Str.Slug | src/Str.php:499-515 | The slug consists of lower-case letters, digits, `-` and the delimiter. It has no delimiter at either end and no doubled delimiter. |
| Str.SlugDefault | src/Str.php:499-515 | With the default delimiter: only `[a-z0-9-]`, no leading or trailing `-`, and never `--`. |
| Str.SlugOfSlug | src/Str.php:499-515 | A text that is already a slug comes back unchanged. |
| Math.IntIsFloat | src/Math.php:214-221 | Every int passes `isFloat`, given as an int or as its text. |
| Math.IsIntegerCanonical | src/Math.php:204-207 | A string passes `isInteger` exactly when it is a canonical decimal integer in the int range: no leading zero, no `+`, no blank, no fraction. Its `(int)` is then its value. |
| Math.CanonicalCast | src/Math.php:206 | The `(int)` cast of a canonical integer text is its value, and `(string)` of that gives the text back. |
| Math.IntIsInteger | src/Math.php:204-207 | Every int passes `isInteger`, given as an int or as its text. |
| Math.SuffixByDigits | src/Math.php:111-117 | The suffix table read by `% 100` and `% 10` is the suffix read off the last two digits: `th` after a tens digit of 1, otherwise `st`, `nd` or `rd` for a last digit 1, 2 or 3, otherwise `th`. |
| Math.Ordinal | src/Math.php:105-118 | False unless the argument is a positive integer. Otherwise the number's text followed by the suffix its last two digits call for. |
| Math.FacultyOf | src/Math.php:131-135 | `k!` while it fits in an int. Beyond 20 the product becomes a float, which the declared `bool\|int` return type turns into a `TypeError`. |
| Math.Faculty | src/Math.php:125-136 | False for a negative or non-integer argument, `n!` for 0 to 20, and a `TypeError` above. |
| Math.FacultyRecurrence | src/Math.php:131-135 | `faculty(0)` is 1 and `faculty(k)` is `k * faculty(k - 1)`. |
| Math.FactTwenty | src/Math.php:135 | 20! is the largest factorial in the 64-bit range. |
| Math.PickEmpty | src/Math.php:151-155 | The bit loop picks no element from the first `k` exactly when the low `k` bits of `i` are clear. |
| Math.SubsetNonEmpty | src/Math.php:150-155 | Every index from 1 to `2^n - 1` lists at least one element. |
| Math.SubsetZero | src/Math.php:150-155 | Index 0 lists nothing, so the engine never creates key 0. |
| Math.Combinations | src/Math.php:144-158 | Keys `1 … 2^n - 1` in order. Entry `i` lists the elements whose bit is set in `i`, in index order. |
| Math.CombinationById | src/Math.php:158 | An id between 1 and `2^n - 1` gives that subset, which is non-empty. Any other id gives `[]`. |
| Math.Min | src/Math.php:167-178 | False unless `isFloat`. Otherwise the number, raised to `min` when below it, so never below `min`. |
| Math.Max | src/Math.php:186-197 | False unless `isFloat`. Otherwise the number, lowered to `max` when above it, so never above `max`. |
| Math.RangeChecksComplement | src/Math.php:230-253 | On a number exactly one of `isInRange` and `isOutOfRange` holds. On anything else neither does. |
| Math.Clamp | src/Math.php:167-197 | `max(min(x, lo), hi)` lies in `[lo, hi]`, and a number already there is left alone. |
| Math.TruncRem | src/Math.php:266 | PHP's `%` agrees with the mathematical remainder on non-negative dividends. |
| Math.EvenOdd | src/Math.php:260-281 | An int is even exactly when it is a multiple of two, negative ints included. It is odd exactly when its remainder is 1 or -1. |
| Filter.Alpha | src/Filter.php:17-20 | Only letters are left, every letter of the input is kept, and a text of letters is unchanged. |
| Filter.Alphanum | src/Filter.php:27-30 | The same for letters and digits. |
| Filter.Base64 | src/Filter.php:37-40 | The same for `A-Za-z0-9/+=`. |
| Filter.FiltersInOrder | src/Filter.php:17-40 | Each filter treats the parts of a concatenation independently. A single character is kept exactly when it is in the class. Together these fix the result as the kept characters in input order. |
| Filter.FiltersNest | src/Filter.php:17-40 | Each narrower filter's result passes the wider one unchanged. `alpha` after `alphanum` is `alpha`. |
| Filter.SanitizeNumberInt | src/Filter.php:51 | Only digits, `+` and `-` are left, and every digit and sign of the input is kept. Text made only of them is unchanged. |
| Filter.SanitizeInOrder | src/Filter.php:51 | Sanitising keeps order: a concatenation is sanitised part by part, and a single character is kept exactly when it is a digit or a sign. |
| Filter.Digits | src/Filter.php:47-52 | Exactly the digits are left, in order. |
| Filter.DigitsOnly | src/Filter.php:49-51 | Replacing away both signs and then sanitising leaves exactly the digits. |
| Filter.MatchFrom | src/Filter.php:83 | The leftmost position where `[-+]?[0-9]+` matches, or none. |
| Filter.MatchText | src/Filter.php:83-87 | The matched text is numeric. |
| Filter.Int | src/Filter.php:79-88 | A text without a digit gives 0. |
| Filter.IntOfIntText | src/Filter.php:79-88 | Round trip: `int` of the text of an int gives the int back. |
| Filter.SignNextToDigit | src/Filter.php:81-87 | Only the sign next to the digits counts: `' +- 5'` gives -5 and `' -+ 6'` gives 6. |
| Html.AttributeElement | src/HTML.php:38-57 | A numeric key returns a string value as it is. A boolean under any key but `value` gives the key or `''`. An array under `class` gives `class="…"` with the values joined by blanks. A null value gives null. The type error is raised exactly for a numeric key with a value that is neither a string nor null. |
| Html.ElementQuoted | src/HTML.php:52-54 | Any other value gives `key="q"`, where `q` holds no double quote and decodes to the value's text. |
| Html.Elements | src/HTML.php:19-27 | The walk succeeds exactly when no entry is a type error, and keeps at most one element per entry. |
| Html.Attributes | src/HTML.php:17-30 | `''` exactly when no element is kept. Otherwise each kept element behind a blank, in input order. A `false` boolean still contributes its empty element. |
| Html.AttributesAppend | src/HTML.php:17-30 | The attributes of a concatenation are the concatenation of the attributes. |
| Html.NullEntryIgnored | src/HTML.php:24-26 | An entry with a null value adds nothing, wherever it stands. |
| Html.AttributesSingle | src/HTML.php:17-30 | One entry gives its element behind a blank, or nothing for null. |
| Html.WordKeyNotNumeric | src/HTML.php:40 | A key that opens with a letter or another non-number character is never numeric. |
| Form.MergeLookup | src/Form.php:69 | `array_merge` on string keys: the second array's value wins, otherwise the first array's. |
| Form.GetMethod | src/Form.php:80-85 | `GET` exactly when the upper-cased method is `GET`, otherwise `POST`. |
| Form.GetMethodNormal | src/Form.php:80-85 | The result ignores letter case, and a decided method stays as it is. |
| Form.GetIdAttribute | src/Form.php:188-199 | An `id` option wins, even a null one. Otherwise the name when a label with that name was issued since the last `close`, otherwise null. A non-string `id` is a type error. |
| Form.Input | src/Form.php:168-181 | The markup is a single `<input …>` tag. |
| Form.Hidden | src/Form.php:243-246 | `hidden` yields an `<input` tag built from the name, the value and the given options. |
| Form.HiddenField | src/Form.php:168-181 | Spelled out: the name, `type="hidden"` and the escaped value, in that order, then the id when a label with that name is registered. |
| Form.Appendage | src/Form.php:102-111 | Nothing is appended exactly when the upper-cased method is not DELETE, PATCH or PUT. |
| Form.AppendageSpoofed | src/Form.php:102-111 | A spoofed method gets a hidden `_method` field holding the upper-cased method. |
| Form.ExceptReserved | src/Form.php:69 | `Arr::except` of `method`, `action` and `files` equals removing those three top-level keys in turn, for any options. |
| Form.MethodOption | src/Form.php:54 | A string `method` option is returned as it is, and `post` when the option is absent. A non-string method is a type error. |
| Form.ActionOption | src/Form.php:92 | The `action` option is returned as it is, and null when absent. A value that is neither a string nor null is a type error. |
| Form.Copied | src/Form.php:65-69 | The options `open` copies: the enctype set for files, then everything but `method`, `action` and `files`. |
| Form.FormAttributes | src/Form.php:52-70 | Assembling the attributes fails exactly when the method or action option has the wrong type. |
| Form.Open | src/Form.php:52-73 | The markup opens with `<form`. |
| Form.LeadingLookup | src/Form.php:56-61 | What `open` sets itself: UTF-8 as `accept-charset`, the decided method, and the action only when it is truthy. |
| Form.CopiedLookup | src/Form.php:65-69 | Every option except `method`, `action` and `files` is copied as it is. A truthy `files` adds `enctype`. |
| Form.FormAttributesLookup | src/Form.php:69 | A copied option wins over what `open` sets itself. |
| Form.OpenReserved | src/Form.php:52-73 | `method`, `action` and `files` are never copied raw. The method is the decided one, the action appears only when truthy, and `files` never appears. |
| Form.OpenFiles | src/Form.php:65-67 | A truthy `files` adds `enctype="multipart/form-data"`. |
| Form.OpenCharset | src/Form.php:56 | `accept-charset` is UTF-8 unless the options give one. |
| Form.OpenCopies | src/Form.php:69 | Every other option is passed through unchanged. |
| Form.Unhyphen | src/Form.php:157 | `_` and `-` become blanks, and every other character stays. |
| Form.UcWords | src/Form.php:157 | The first character and every character after whitespace are upper-cased. All others stay. |
| Form.UcWordsCase | src/Form.php:157 | Capitalising changes letters' case only. |
| Form.UcWordsIdempotent | src/Form.php:157 | Capitalising twice is capitalising once. |
| Form.FormatLabel | src/Form.php:155-158 | A truthy value is the label as it is. |
| Form.FormatLabelFromName | src/Form.php:155-158 | Otherwise the label is the name with no `_` or `-` left, the same letters up to case, and every word starting upper-case. |
| Form.FormatLabelIdempotent | src/Form.php:155-158 | A label made from a name is its own label. |
| Form.Label | src/Form.php:131-147 | The name is registered whatever happens. The markup fails exactly when the options' attributes do. |
| Form.Close | src/Form.php:116-121 | `close` leaves the registry empty and gives `</form>`. |
| Form.CloseForgetsLabels | src/Form.php:116-121 | After `close`, a field without an `id` option gets no id from the registry, whatever was labelled before. |
| Form.LabelGivesId | src/Form.php:188-199 | After `label(name)`, a field of that name without an `id` option gets the name as its id. After `close`, it gets none. |
| Form.ExplicitIdWins | src/Form.php:190-192 | An explicit string `id` option wins over the registry. |
| Form.Named | src/Form.php:170-172 | The name is put in unless the options set one. Every other key is unchanged. |
| Form.SizeEntries | src/Form.php:607 | `compact('cols', 'rows')` holds both keys. |
| Form.QuickTextareaSize | src/Form.php:615-620 | The quick size succeeds exactly when `size` is a string. |
| Form.TextareaSizes | src/Form.php:598-608 | Without a set `size`, the sizes always apply. |
| Form.TextareaAttributes | src/Form.php:575-584 | `size` never reaches the markup. The id is the resolved one, and every other key comes from the sized options. |
| Form.Textarea | src/Form.php:569-591 | `<textarea…>…</textarea>`, failing exactly when the attributes fail. |
| Form.TextareaQuickSize | src/Form.php:615-620 | A `size` of `CxR` sets cols to C and rows to R. |
| Form.TextareaDefaultSize | src/Form.php:598-608 | Without `size`, cols are 50 and rows 10 unless the options give them. |
| Form.GetSelectedValue | src/Form.php:775-786 | Against an array: `selected` exactly when the value is a strict member. An int against a bool: a bool comparison. Otherwise: `selected` exactly when the string forms are equal. |
| Form.SelectedSymmetric | src/Form.php:785 | Comparing string forms does not depend on the order of the two. |
| Form.PlaceholderSelected | src/Form.php:785 | The null placeholder is selected exactly when the selection's text is empty. |
| Form.IsAssocArray | src/Form.php:843-846 | An array is associative exactly when some entry's key is not its position. |
| Template.Placeholder | src/Template.php:37 | A placeholder is the key between `%` signs. |
| Template.Substitute | src/Template.php:30-38 | Substitution succeeds exactly when every data value is a string. Otherwise it fails naming the first non-string entry. |
| Template.Render | src/Template.php:21-42 | A missing template raises the not-found error. Empty data leaves the text as it is, placeholders included. Any non-string value raises the data error. |
| Template.SubstituteAppend | src/Template.php:30-38 | Replacements run in data order: the entries of `a`, then those of `b`. |
| Template.RenderWithoutPlaceholders | src/Template.php:21-42 | Text without `%` renders to itself. |
| Template.RenderOnePlaceholder | src/Template.php:37 | `%name%` is replaced by the escaped value. |
| ClassFinder.LastComponent | src/ClassFinder.php:40 | The characters after the last slash. |
| ClassFinder.BasenameIn | src/ClassFinder.php:40 | The base name holds no slash and consists of characters of the path. |
| ClassFinder.ClassBasename | src/ClassFinder.php:36-41 | The result has neither kind of separator. |
| ClassFinder.ClassBasenameOfQualified | src/ClassFinder.php:40 | The last name of a namespaced class or file path, with a trailing `.php` stripped. |
| ClassFinder.ClassBasenameBare | src/ClassFinder.php:40 | A name without separators comes back unchanged, except that a `.php` suffix behind at least one character is dropped (`Foo.php` gives `Foo`). |
| ClassFinder.LastComponentAfter | src/ClassFinder.php:40 | After the last slash comes the whole last part. |
| ClassFinder.ClassBasenameTrailing | src/ClassFinder.php:40 | Trailing separators of either kind are ignored. |
| ClassFinder.ClassBasenameSeparatorsOnly | src/ClassFinder.php:40 | A name made only of separators, or an empty name, gives `''`. |

## Left out

- `src/File.php`, `src/Date.php`, `src/Timezone.php` and `src/Clock.php` are not part of this model. They depend on the filesystem, the system clock and the timezone database.
- Floating point: `Math::round`, `average`, `percentage` and `Filter::float`.
  - A numeric string is valued as an exact rational number.
  - No PHP float value exists in the model.
- Php.Value: integer values and integer keys are unbounded `int`s. The 64-bit range is modelled where the helpers depend on it: string keys normalise only inside it (`Php.KeyOf`), and `Math` and `Filter` return `Int64` results. Overflow of an integer value or of the next free index is not modelled.
- Math.EvenOdd: `isEven` and `isOdd` are modelled on integers only, because on other numbers they rely on PHP's float-to-int cast in `%`.
- Case mapping is ASCII-only.
  - This is exact for `strtoupper`, `strcasecmp` and `ucwords`, and for the ASCII text of `toBool` and `slug`.
  - It approximates `mb_strtolower` and `mb_stripos` on other letters.
- Str.StripWhitespace: the `mb_ereg` engine behind `Str::replace` is not modelled. `\s` is taken as the ASCII whitespace class.
- Str.ToAscii: the transliteration table is a parameter. Only the final filter to 0x20-0x7E is modelled.
- Str.Slug: the transliteration table is a parameter. The delimiter is one character that is neither a letter, a digit nor a regex metacharacter (`PlainDelimiter`); a longer delimiter or one the patterns would interpret is not modelled.
- Str.EscapeKeepingEntities: with double encoding off, an entity is recognised by its syntax (`&name;` or `&#…;`). Whether the name is in the HTML entity table is not checked.
- Str.EndsWith: an empty needle never matches, as the repository's tests pin down (tests/StrTest.php:103). What `mb_strrpos` returns for an empty needle differs between engine versions and is not modelled.
- `ArrayAccess` objects, objects in general, and resources are not modelled. `Arr::accessible` is the test `Value.Arr?` inside the walk.
- Php.Push: the next integer key is one past the largest integer key present. The engine's memory of larger keys that were since removed is not modelled.
- Callbacks of `first`, `last` and `where` are pure functions of value and key.
- `ClassFinder::getNamespaceFromFile` (PHP tokenizer) and `getClassesFromDirectory` (glob) are not modelled.
- ClassFinder.ClassBasename: an object argument is not modelled; it is passed by its class name.
- `Template::render` does not read files: the file's contents are an `Option<string>` argument, absent when `is_file` or `file_get_contents` fails.
- Form's other field helpers are not modelled: `select`, `option`, `checkbox`, `radio`, `datalist` and the date and time inputs with their `DateTime` formatting. Only `getSelectedValue` and `isAssocArray` from the select code are.
- Form.QuickTextareaSize: a `size` without `x` reads its missing second part as null. The engine's undefined-index warning is not modelled.
- Form.TextareaQuickSize: requires well-formed options (as every engine array is) and an `id` option that is a string or null. Other `id` types are the type error stated in `Form.GetIdAttribute`.
- Form.TextareaDefaultSize: the same preconditions as `Form.TextareaQuickSize`.
- Form.TextareaAttributes: the ensures states the attribute array only. The escaped body text is stated in `Form.Textarea`'s definition, not its contract.
- Form.Input: the contract states only that the markup is one `<input …>` tag. The full attribute order is stated for `hidden` in `Form.HiddenField`.
- Form.Hidden: like `Form.Input`, the contract states the tag shape. The full markup is stated by `Form.HiddenField` for empty options, which is how `getAppendage` calls it.
- Form.Open: the contract states only that the markup opens with `<form`. The attributes are stated key by key by `Form.OpenReserved`, `Form.OpenFiles`, `Form.OpenCharset` and `Form.OpenCopies`.
- Form.Copied: states `Arr::except` of the reserved keys directly as three removals. `Form.ExceptReserved` proves this equal to the `Arr.Except` call.
- Filter.Int: the contract states the no-digit case only. The parse is stated by `Filter.IntOfIntText` and `Filter.SignNextToDigit`.
- Arr.Forget: the contract states the empty and one-key cases. This corrected batch is stated by `Arr.ForgetDotFree` and `Arr.ForgetKeepsAbsent`. The code as written (`Arr.ForgetAsWritten`) agrees with it on dot-free batches (`Arr.ForgetAgreesWithoutDots`).
- Arr.Except: follows the code as written, so it inherits the binding leak of the finding below. Its removal is stated for batches of dot-free keys only, where the code as written and the corrected batch agree.
- Arr.ForgetAsWritten: the contract states the empty batch. Dot-free batches are stated by `Arr.ForgetAgreesWithoutDots` and `Arr.ForgetAsWrittenDotFree`, and the leak by `Arr.ForgetLeaksBinding`.
- Exception classes and messages are not modelled: a failure carries the error kind and, for `Template`, the name the message mentions.

## Findings

| source | as written | input that shows it | evidently intended | confidence | as-written member | corrected member |
|---|---|---|---|---|---|---|
| src/Arr.php:216-228 | For a batch, the literal-key check at line 216 runs against whichever container `$array` was last re-bound to by the walk for an earlier key. `Arr::except` inherits this, since it calls `forget`. | Root `{a: {b: 1, c: 2}, c: 3}` with keys `["a.b", "c"]`: after `a.b` the binding is left at `a`, so `c` is found there and `a.c` is removed. The result is `{a: {}, c: 3}`. | Each key resolved from the root, giving `{a: {c: 2}}`. | not executed | Arr.ForgetAsWritten, Arr.ForgetLeaksBinding | Arr.Forget, Arr.ForgetOne |
