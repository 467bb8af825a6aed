# jarvis-framework-tool core, modelled in Dafny

This project models four pieces of the jarvis-framework-tool utility library in Dafny
and proves properties of them:

- **`TimedCache`** (module `CacheImpl`, `timed_cache.dfy`). This is the expiry-only cache.
  It covers the two constructors and the expiry sweep `pruneCache`. The class holds
  `capacity`, `timeout` and `cacheMap`, plus a `removed` log that records every
  `onRemove(key, value)` call. `PruneCache` is a `while` loop over the map's keys, in an
  order the model leaves open. It is proved against the function `Kept` and the
  notification list `Notifications`.
- **`BeanPath`** (module `CoreBean`, `bean_path.dfy`). This covers the path-expression
  tokenizer `init` together with `unWrapIfPossible`, and the traversal loop of the
  private `get`.
  - `BeanPath.Init` is the character loop of `init`, proved equal to the recursive
    function `Tokenize`.
  - The lemmas about `Tokenize` give the exact conditions for success, the three
    exceptions and their reported positions, and the contents of the parts: the
    non-empty runs of text between boundary characters, each passed through
    `unWrapIfPossible` (`TokenizeWords`). They also prove that the documentation's two
    example spellings give the same parts.
  - `BeanPath.Get` is the traversal loop. Field lookup and `BeanUtils.isMatchName` are
    parameters.
- **`MyProperties`** (module `SettingDialect`, `my_properties.dfy`). This is the settings
  table: the getters with defaults, `getAndRemoveStr`, `setProperty` and the key
  selection of `fillBean`.
  - The table is a `map<string, string>` field, and the methods reassign it.
  - The `BigInteger` and `BigDecimal` parsers are parameters of the getters. The
    grammars of the JDK constructors are given as `ParseInteger` and `ParseDecimal`,
    with round-trip lemmas against `toString()` and `toPlainString()`.
- **`QuarterEnum`** (module `CoreDate`, `quarter.dfy`). This is the numbering of the four
  quarters and its inverse.

`wrappers.dfy` holds `Option`, which stands for Java's `null`, and `Result`, which
stands for a thrown exception. `sequences.dfy` holds `Distinct`, used by the cache sweep
and by `fillBean`.

Assumptions about helpers whose code is not part of this model:
- `StringUtils.unWrap(s, '\'')` strips one leading and one trailing `'` when `s` has
  both and at least two characters.
- `StringUtils.containsAny` is substring search.
- `StringUtils.isBlank` is true for `null`, for the empty string, and for strings made
  only of Java whitespace or space characters, U+FEFF, U+202A and U+0000.
- `StringUtils.addSuffixIfNot` returns `null` and `""` unchanged.
- `StringUtils.nullToEmpty` maps `null` to `""`.
- `StringUtils.startWith(key, prefix)` is the plain prefix test (`prefix <= key`).
- `StringUtils.subSuf(key, n)` is the text of a non-empty `key` from position `n` on (`key[n..]`). The empty key is listed under "## Left out".
- No key, value or expression is ever `null`. The arguments that may be `null`, namely the prefix of `fillBean` and the defaults of the getters, are `Option`s.
- `CacheObject.isExpired()` is a predicate parameter, `isExpired`. It includes the
  clock.

Two behaviours of the code that a reader might not expect:
- **A part can be empty.** `init` tests the builder for emptiness before it unwraps it
  (BeanPath.java lines 254 and 268). So the quoted empty key `['']` gives the single part
  `""` (`EmptyQuotedKey`): the builder `''` is not empty, and unwrapping it leaves
  nothing. Expressions without quotes never give an empty part (`TokenizeText`).
- **The fallback in `get` can fire late.** The comment at BeanPath.java line 155 says the
  fallback is there for an expression whose first object is the bean itself. But
  `isFirst` is cleared only when the fallback is taken (line 158), so the loop as
  written offers it at any step until it is taken (see Findings).

## Model

| member | source | states |
|---|---|---|
| `CoreDate.Quarter.Value` | jarvis-tool-core/src/main/java/com/jarvisframework/tool/core/date/QuarterEnum.java:17-33 | each quarter's number is in 1..4, and number i belongs to quarter Qi and to no other |
| `CoreDate.Of` | jarvis-tool-core/src/main/java/com/jarvisframework/tool/core/date/QuarterEnum.java:46-59 | `of(i)` gives a quarter exactly when 1 <= i <= 4, and that quarter's number is i; otherwise null |
| `CoreDate.OfValue` | jarvis-tool-core/src/main/java/com/jarvisframework/tool/core/date/QuarterEnum.java:27-58 | round trip: `of(q.getValue()) == q` for every quarter |
| `CoreDate.ValueInjective` | jarvis-tool-core/src/main/java/com/jarvisframework/tool/core/date/QuarterEnum.java:17-33 | two quarters with the same number are the same quarter |
| `CacheImpl.TimedCache.constructor` | jarvis-tool-cache/sec/main/java/com/github/jarvisframework/tool/cache/impl/TimedCache.java:41-45 | the cache is unbounded (capacity 0) and holds the given timeout and map unchanged; nothing has been removed yet |
| `CacheImpl.TimedCache.WithTimeout` | jarvis-tool-cache/sec/main/java/com/github/jarvisframework/tool/cache/impl/TimedCache.java:31-33 | the one-argument constructor: the same over a new empty map |
| `CacheImpl.TimedCache.PruneCache` | jarvis-tool-cache/sec/main/java/com/github/jarvisframework/tool/cache/impl/TimedCache.java:54-67 | no expired entry remains; every live entry stays under its key with the same entry; the removed keys are exactly the expired ones, each met once; `onRemove` is called once per removed entry with its key and value, in the order they were met, and never for a kept one; the count is the number removed, equals old size minus new size, and lies in 0..old size; capacity and timeout do not change |
| `CacheImpl.Notifications` | jarvis-tool-cache/sec/main/java/com/github/jarvisframework/tool/cache/impl/TimedCache.java:62 | the i-th notification carries the key and value of the i-th removed entry |
| `CacheImpl.SweepPartition` | jarvis-tool-cache/sec/main/java/com/github/jarvisframework/tool/cache/impl/TimedCache.java:55-66 | the kept keys and the removed keys are disjoint and together make up all the old keys, so kept + removed = old size |
| `CacheImpl.SweepKeepsExactlyLive` | jarvis-tool-cache/sec/main/java/com/github/jarvisframework/tool/cache/impl/TimedCache.java:58-64 | a key survives the sweep exactly when it was present and its entry was not expired, and it keeps that entry |
| `CacheImpl.SweepIdempotent` | jarvis-tool-cache/sec/main/java/com/github/jarvisframework/tool/cache/impl/TimedCache.java:58-66 | sweeping the survivors again under the same predicate removes nothing |
| `CacheImpl.PruneTwice` | jarvis-tool-cache/sec/main/java/com/github/jarvisframework/tool/cache/impl/TimedCache.java:54-67 | a second `pruneCache` right after the first, under the same predicate, returns 0 and leaves the map as the first left it |
| `CoreBean.ContainsInfixIff` | jarvis-tool-core/src/main/java/com/github/jarvisframework/tool/core/bean/BeanPath.java:284 | the substring search used for `containsAny` is true exactly when the mark occurs at some position |
| `CoreBean.HasOperatorContains` | jarvis-tool-core/src/main/java/com/github/jarvisframework/tool/core/bean/BeanPath.java:284 | text marks a condition or key list exactly when `containsAny` finds one of `" = "`, `" > "`, `" < "`, `" like "` or `","` in it |
| `CoreBean.UnWrapIfPossible` | jarvis-tool-core/src/main/java/com/github/jarvisframework/tool/core/bean/BeanPath.java:283-288 | text holding `" = "`, `" > "`, `" < "`, `" like "` or `","` is returned as it is; otherwise text wrapped in single quotes loses exactly those two quotes, and other text is unchanged |
| `CoreBean.UnWrapKeepsChars` | jarvis-tool-core/src/main/java/com/github/jarvisframework/tool/core/bean/BeanPath.java:283-288 | every character of the unwrapped text is a character of the input |
| `CoreBean.UnWrapQuotedKey` | jarvis-tool-core/src/main/java/com/github/jarvisframework/tool/core/bean/BeanPath.java:283-288 | a quoted key with no operator mark comes back as the bare key |
| `CoreBean.BodyStart` | jarvis-tool-core/src/main/java/com/github/jarvisframework/tool/core/bean/BeanPath.java:229-233 | the loop skips at most one character, position 0: it skips it when that character is `$` and skips nothing otherwise |
| `CoreBean.ScanState` | jarvis-tool-core/src/main/java/com/github/jarvisframework/tool/core/bean/BeanPath.java:227-262 | after a successful scan, the builder holds the text after the last boundary character, `isNumStart` says whether the last boundary character was `[`, and neither the builder nor any part contains `.`, `[` or `]` |
| `CoreBean.ScanOkIff` | jarvis-tool-core/src/main/java/com/github/jarvisframework/tool/core/bean/BeanPath.java:235-253 | the character loop throws nothing exactly when every `]` closes an open `[` and no `.` or `[` appears inside brackets |
| `CoreBean.ScanErrAt` | jarvis-tool-core/src/main/java/com/github/jarvisframework/tool/core/bean/BeanPath.java:237-247 | a failing loop reports the first misplaced character: "']' but no '['" for a `]` outside brackets, "'[' but no ']'" for a `.` or `[` inside them, with that character's position |
| `CoreBean.ScanText` | jarvis-tool-core/src/main/java/com/github/jarvisframework/tool/core/bean/BeanPath.java:254-261 | without quotes, the parts followed by the builder spell the scanned text with the boundary characters removed, and every part is non-empty |
| `CoreBean.TokenizeOkIff` | jarvis-tool-core/src/main/java/com/github/jarvisframework/tool/core/bean/BeanPath.java:220-275 | `init` succeeds exactly when the text after a leading `$` is balanced and leaves no `[` open |
| `CoreBean.TokenizeErrors` | jarvis-tool-core/src/main/java/com/github/jarvisframework/tool/core/bean/BeanPath.java:237-266 | each exception of `init` is one of the three: a `]` with no open `[`, a `.` or `[` inside brackets (at its position, with everything before it balanced), or a `[` still open at the end (reported at `length - 1`) |
| `CoreBean.TokenizeParts` | jarvis-tool-core/src/main/java/com/github/jarvisframework/tool/core/bean/BeanPath.java:229-270 | a leading `$` is recorded in `isStartWith$`, and no part contains `.`, `[` or `]` |
| `CoreBean.TokenizeText` | jarvis-tool-core/src/main/java/com/github/jarvisframework/tool/core/bean/BeanPath.java:227-271 | without quotes, the parts are non-empty and spell out the expression after a leading `$` with the boundary characters removed, so a `$` anywhere else is kept as an ordinary character |
| `CoreBean.WordsText` | jarvis-tool-core/src/main/java/com/github/jarvisframework/tool/core/bean/BeanPath.java:235-261 | the runs of an expression between boundary characters are non-empty, hold no boundary character, and spell the expression with the boundary characters removed |
| `CoreBean.ScanWords` | jarvis-tool-core/src/main/java/com/github/jarvisframework/tool/core/bean/BeanPath.java:235-261 | during the loop, the parts are the runs already closed by a boundary character, each passed through `unWrapIfPossible` |
| `CoreBean.TokenizeWords` | jarvis-tool-core/src/main/java/com/github/jarvisframework/tool/core/bean/BeanPath.java:227-271 | the parts of a successful `init` are exactly the non-empty runs of the expression after a leading `$` between boundary characters, in order, each passed through `unWrapIfPossible` (for quoted and unquoted keys alike) |
| `CoreBean.DottedShape` | jarvis-tool-core/src/main/java/com/github/jarvisframework/tool/core/bean/BeanPath.java:254-270 | for any words a, b, c, d that are non-empty, hold no boundary character and are not wrapped in quotes, with a not starting with `$`, `a.b[c].d` gives the parts a, b, c, d |
| `CoreBean.BracketedShape` | jarvis-tool-core/src/main/java/com/github/jarvisframework/tool/core/bean/BeanPath.java:254-270 | for any words a, b, d that hold no boundary character and no operator mark once quoted, and any non-empty word c that holds no boundary character and is not wrapped in quotes, `['a']['b'][c]['d']` gives the parts a, b, c, d |
| `CoreBean.DottedExample` | jarvis-tool-core/src/main/java/com/github/jarvisframework/tool/core/bean/BeanPath.java:28 | `person.friends[5].name` gives `person, friends, 5, name` |
| `CoreBean.BracketedExample` | jarvis-tool-core/src/main/java/com/github/jarvisframework/tool/core/bean/BeanPath.java:29 | `['person']['friends'][5]['name']` gives the same four parts |
| `CoreBean.EmptyQuotedKey` | jarvis-tool-core/src/main/java/com/github/jarvisframework/tool/core/bean/BeanPath.java:254-257 | `['']` gives one empty part |
| `CoreBean.BeanPath.constructor` | jarvis-tool-core/src/main/java/com/github/jarvisframework/tool/core/bean/BeanPath.java:44-45 | before `init`, `isStartWith$` is false and there are no parts |
| `CoreBean.BeanPath.Init` | jarvis-tool-core/src/main/java/com/github/jarvisframework/tool/core/bean/BeanPath.java:220-275 | the loop of `init` computes `Tokenize`: on success the parts are stored; on an exception that exception is reported and the parts are untouched; a leading `$` sets `isStartWith$` even when an exception follows |
| `CoreBean.ScanPrefixChars` | jarvis-tool-core/src/main/java/com/github/jarvisframework/tool/core/bean/BeanPath.java:227-261 | the loop, reading the expression by position from the start up to any position n, reaches the same state as the scan of the text between the start and n |
| `CoreBean.ScanErrExtends` | jarvis-tool-core/src/main/java/com/github/jarvisframework/tool/core/bean/BeanPath.java:240-247 | the first exception thrown is the one `init` reports: reading more text does not change it |
| `CoreBean.Create` | jarvis-tool-core/src/main/java/com/github/jarvisframework/tool/core/bean/BeanPath.java:69-80 | `create(expression)` gives a path holding `Tokenize(expression)`'s parts, or the exception its constructor throws |
| `CoreBean.BeanPath.Get` | jarvis-tool-core/src/main/java/com/github/jarvisframework/tool/core/bean/BeanPath.java:143-165 | the traversal loop with the fallback to the bean offered at the first step only (the corrected loop, see Findings) computes `LookupIntended` |
| `CoreBean.WalkStrict` | jarvis-tool-core/src/main/java/com/github/jarvisframework/tool/core/bean/BeanPath.java:151-164 | once the fallback is used up, the loop is plain field-by-field lookup that returns null at the first missing step |
| `CoreBean.WalkFallback` | jarvis-tool-core/src/main/java/com/github/jarvisframework/tool/core/bean/BeanPath.java:151-164 | where plain lookup succeeds, or the expression began with `$`, the fallback never fires |
| `CoreBean.LookupFollows` | jarvis-tool-core/src/main/java/com/github/jarvisframework/tool/core/bean/BeanPath.java:143-165 | the loop as written visits the first n parts, or n-1 with `ignoreLast`, and agrees with plain lookup whenever that succeeds or the expression began with `$` |
| `CoreBean.WalkPrefix` | jarvis-tool-core/src/main/java/com/github/jarvisframework/tool/core/bean/BeanPath.java:151-153 | the loop reads only the parts it visits |
| `CoreBean.IgnoreLastDropsLast` | jarvis-tool-core/src/main/java/com/github/jarvisframework/tool/core/bean/BeanPath.java:144-147 | in the loop as written, `ignoreLast` is the same as looking up the path without its last part |
| `CoreBean.LookupIntendedFollows` | jarvis-tool-core/src/main/java/com/github/jarvisframework/tool/core/bean/BeanPath.java:143-165 | the corrected traversal in full: plain lookup, except that a first part the bean lacks is skipped when its name matches the bean and the expression has no `$` |
| `CoreBean.LookupAgreesWhenFirstFails` | jarvis-tool-core/src/main/java/com/github/jarvisframework/tool/core/bean/BeanPath.java:154-161 | the loop as written and the corrected one give the same result whenever nothing is visited, the bean lacks the first field, or the expression began with `$` |
| `CoreBean.LateFallback` | jarvis-tool-core/src/main/java/com/github/jarvisframework/tool/core/bean/BeanPath.java:149-161 | the loop as written takes the fallback at the second step (for `a.b` it returns the bean itself) where the corrected loop returns null |
| `CoreBean.IntendedIgnoreLastDropsLast` | jarvis-tool-core/src/main/java/com/github/jarvisframework/tool/core/bean/BeanPath.java:144-147 | in the corrected loop, `ignoreLast` is the same as looking up the path without its last part |
| `SettingDialect.MyProperties.GetString` | jarvis-tool-setting/src/main/java/com/github/jarvisframework/tool/setting/dialect/MyProperties.java:317-324 | the stored value when the key is present, the default otherwise (null for the one-argument form) |
| `SettingDialect.MyProperties.GetObject` | jarvis-tool-setting/src/main/java/com/github/jarvisframework/tool/setting/dialect/MyProperties.java:307-314 | the stored value when present; otherwise the default's `toString()`, or null when the default is null |
| `SettingDialect.MyProperties.GetChar` | jarvis-tool-setting/src/main/java/com/github/jarvisframework/tool/setting/dialect/MyProperties.java:357-368 | the first character of a stored value that is not blank; the default when the value is missing or blank |
| `SettingDialect.MyProperties.GetBigDecimal` | jarvis-tool-setting/src/main/java/com/github/jarvisframework/tool/setting/dialect/MyProperties.java:411-427 | the parsed value when the stored value is non-blank and parses; the default when it is missing, blank, or the parse throws |
| `SettingDialect.MyProperties.GetBigInteger` | jarvis-tool-setting/src/main/java/com/github/jarvisframework/tool/setting/dialect/MyProperties.java:430-446 | the parsed value when the stored value is non-blank and parses; the default when it is missing, blank, or the parse throws |
| `SettingDialect.FirstHit` | jarvis-tool-setting/src/main/java/com/github/jarvisframework/tool/setting/dialect/MyProperties.java:477-482 | the position of the first listed key the table holds: that key is present and every key before it is absent; none exactly when no listed key is present |
| `SettingDialect.MyProperties.GetAndRemoveStr` | jarvis-tool-setting/src/main/java/com/github/jarvisframework/tool/setting/dialect/MyProperties.java:475-484 | removes the listed keys in order up to the first one present and returns that key's value; only that key leaves the table and the keys after it are untouched; with no listed key present it returns null and the table is unchanged |
| `SettingDialect.MyProperties.SetProperty` | jarvis-tool-setting/src/main/java/com/github/jarvisframework/tool/setting/dialect/MyProperties.java:579-581 | stores `value.toString()` under the key and changes no other key; `getString(key, d)` then returns it whatever the default `d`, and `getString` on any other key returns what it returned before |
| `SettingDialect.NormalizePrefix` | jarvis-tool-setting/src/main/java/com/github/jarvisframework/tool/setting/dialect/MyProperties.java:549 | null becomes `""`; the result is `""` or ends in `.`; it extends the given prefix by at most one character and leaves `""` and a prefix already ending in `.` as they are |
| `SettingDialect.NormalizeIdempotent` | jarvis-tool-setting/src/main/java/com/github/jarvisframework/tool/setting/dialect/MyProperties.java:549 | normalizing an already normalized prefix changes nothing |
| `SettingDialect.Selected` | jarvis-tool-setting/src/main/java/com/github/jarvisframework/tool/setting/dialect/MyProperties.java:552-557 | the keys passed on are exactly the table's keys that start with the prefix |
| `SettingDialect.MyProperties.FillBean` | jarvis-tool-setting/src/main/java/com/github/jarvisframework/tool/setting/dialect/MyProperties.java:548-567 | every key that starts with the normalized prefix, and no other, is written exactly once, under its name without the prefix and with its value; a write that throws is skipped and the loop goes on; the bean is the result of those writes in iteration order |
| `SettingDialect.StrippedName` | jarvis-tool-setting/src/main/java/com/github/jarvisframework/tool/setting/dialect/MyProperties.java:559 | the prefix followed by the stripped name is the key again |
| `SettingDialect.WritesAllFail` | jarvis-tool-setting/src/main/java/com/github/jarvisframework/tool/setting/dialect/MyProperties.java:558-563 | when every write throws, the bean comes back unchanged |
| `SettingDialect.WritesSkipFailure` | jarvis-tool-setting/src/main/java/com/github/jarvisframework/tool/setting/dialect/MyProperties.java:558-563 | a failed write does not stop the loop: the later writes act as if the failed key had not been there |
| `SettingDialect.ParseInteger` | jarvis-tool-setting/src/main/java/com/github/jarvisframework/tool/setting/dialect/MyProperties.java:437 | `new BigInteger(s)` accepts only non-empty text |
| `SettingDialect.ParseIntegerText` | jarvis-tool-setting/src/main/java/com/github/jarvisframework/tool/setting/dialect/MyProperties.java:437 | the decimal text of any integer parses back to that integer |
| `SettingDialect.NatTextValue` | jarvis-tool-setting/src/main/java/com/github/jarvisframework/tool/setting/dialect/MyProperties.java:437 | the digits of a natural number have that number as their value |
| `SettingDialect.ParseDecimal` | jarvis-tool-setting/src/main/java/com/github/jarvisframework/tool/setting/dialect/MyProperties.java:418 | `new BigDecimal(s)` yields only scales that fit a Java `int` (the rejection of an exponent outside the `int` range is `ExponentOverflow`) |
| `SettingDialect.ExponentOverflow` | jarvis-tool-setting/src/main/java/com/github/jarvisframework/tool/setting/dialect/MyProperties.java:418 | for any mantissa m (digits with at most one point), `new BigDecimal(m + "e" + t)` throws when the exponent `t` lies outside the Java `int` range, even for `1e2147483648`, whose scale would fit |
| `SettingDialect.ParseDecimalPlain` | jarvis-tool-setting/src/main/java/com/github/jarvisframework/tool/setting/dialect/MyProperties.java:418 | the plain text of any decimal with a non-negative `int` scale parses back to the same decimal, scale included |
| `SettingDialect.LeadingZeros` | jarvis-tool-setting/src/main/java/com/github/jarvisframework/tool/setting/dialect/MyProperties.java:418 | leading zeros do not change the value of a run of digits |
| `SettingDialect.StoredIntegerReadsBack` | jarvis-tool-setting/src/main/java/com/github/jarvisframework/tool/setting/dialect/MyProperties.java:430-441 | an integer stored as its decimal text comes back from `getBigInteger` as itself |
| `SettingDialect.StoredDecimalReadsBack` | jarvis-tool-setting/src/main/java/com/github/jarvisframework/tool/setting/dialect/MyProperties.java:411-422 | a decimal with a scale of 0 or more, stored as its plain text, comes back from `getBigDecimal` as itself, scale included |
| `SettingDialect.StoredCharReadsBack` | jarvis-tool-setting/src/main/java/com/github/jarvisframework/tool/setting/dialect/MyProperties.java:357-363 | a stored value whose first character is not blank gives that character |

## Findings

| source | as written | input that shows it | evidently intended | confidence | as-written member | corrected member |
|---|---|---|---|---|---|---|
| jarvis-tool-core/src/main/java/com/github/jarvisframework/tool/core/bean/BeanPath.java:149-161 | `isFirst` is cleared only when the fallback is taken, so a missing field at any later step can still fall back to the root bean | parts `a, b` on a bean whose field `a` has no field `b`, where `isMatchName(bean, "b")` holds: `get` returns the bean itself instead of null | the fallback, which the comment on the branch describes as the first object of the expression being the bean itself, is offered at the first step only | medium, not executed | `CoreBean.LateFallback` | `CoreBean.LookupIntendedFollows` |

`CoreBean.Lookup` models the loop as written and `CoreBean.LookupIntended` models the
corrected loop. `CoreBean.BeanPath.Get` implements the corrected loop by clearing
`isFirst` after every step.

## Left out

- `TimedCache.schedulePrune` and `cancelPruneSchedule`, and `GlobalPruneTimerEnum`: these are a background timer and the cancelling of a scheduled job, which is concurrency.
- `CacheObject.isExpired()`, `AbstractCache` and the other cache variants are not part of this model. Expiry is the parameter `isExpired`, and the clock it reads is folded into it.
- `CacheImpl.TimedCache.PruneCache`: `count` is an unbounded integer. A Java `int` could only wrap with more than 2^31 entries, which a `HashMap` cannot hold. The `long` timeout is stored as an unbounded integer and is never computed with.
- `CacheImpl.TimedCache.PruneCache`: the sweep works on local copies of the map and the notification log, and stores both once it is done. A subclass's `onRemove` that read the cache in the middle of the sweep would see the map as it stands at that point; that is not modelled.
- `CacheImpl.TimedCache.PruneCache`: the order in which `HashMap` iterates is left open. The ghost `order` records the order that was used.
- `BeanPath.set`, `getFieldValue` and `BeanUtils.isMatchName`: these are reflection over beans, maps, lists and arrays. Field lookup and name matching are the function parameters `fieldValue` and `isMatchName`, and a Java `null` result is `None`.
- `CoreBean.BeanPath.Init`: the path is kept as a plain sequence. The unmodifiable list wrapper is not modelled.
- `CoreBean.Tokenize`, `CoreBean.BeanPath.Init` and `SettingDialect.MyProperties.GetChar`: strings are sequences of Unicode characters, while Java's `length()` and `charAt` count UTF-16 code units. For text with a character outside the Basic Multilingual Plane, the positions `init` reports differ: `"😀]"` is reported at index 2 in Java and at index 1 here. There, `getChar` returns the whole character where Java returns a lone high surrogate.
- `CacheImpl.TimedCache.constructor`: `TimedCache(long, Map)` keeps the caller's map by reference, so later changes made through either side are shared. The model stores a copy of the map's value, so that sharing is not modelled.
- `CacheImpl.TimedCache.PruneCache`: `onRemove` is taken never to throw. In Java, an exception thrown by `onRemove` would escape `pruneCache` after the entry was removed, losing the count and leaving the remaining entries unswept.
- `null` arguments: Java throws `NullPointerException` for a `null` key in `getStr`, `getChar`, `getBigDecimal` and `setProperty`, and for a `null` expression in `init`. Strings in the model cannot be `null`, so these exceptions are not modelled.
- `SettingDialect.MyProperties.FillBean`: for the empty key, which only the empty prefix selects, `subSuf` returns `null` and Java passes `null` as the property name; the model passes `""`. The write itself is the parameter `setProperty`, so only the name it is given differs.
- `MyProperties` constructors, `load`, `store` and `autoLoad`: these are resource loading, file writing and file watching.
- The `Convert`-backed getters of `MyProperties` (`getInt`, `getLong`, `getBoolean`, `getFloat`, `getDouble`, `getShort`, `getByte`, `getEnum`, `getDate`) and `NumberConverter`: these are thin wrappers over converters that are not part of this model, and some involve floating point.
- `StringUtils` is not part of this model. `unWrap`, `containsAny`, `isBlank`, `addSuffixIfNot`, `nullToEmpty`, `startWith` and `subSuf` are modelled by the assumptions listed at the top.
- `SettingDialect.MyProperties.GetBigDecimal`: the parser is a parameter. `ParseDecimal` accepts only ASCII digits, while `new BigDecimal` also accepts other Unicode decimal digits. Its limit of ten significant exponent digits needs no rule of its own: such an exponent is already outside the Java `int` range, which `ParseDecimal` rejects (`ExponentOverflow`).
- `SettingDialect.MyProperties.GetBigInteger`: the parser is a parameter. `ParseInteger` accepts only ASCII digits, while `new BigInteger` also accepts other Unicode decimal digits.
- `SettingDialect.MyProperties.SetProperty`: a `null` value, which makes Java throw `NullPointerException`, cannot be passed. Values are never `null` here.
- `SettingDialect.MyProperties.GetAndRemoveStr`: a `null` key, for which `Hashtable.remove` throws, cannot be passed. The table holds only strings, so the `(String)` cast cannot fail.
- `SettingDialect.MyProperties.GetString`: `Properties` defaults are not modelled (the instance has none), and neither are values that are not strings, which `getProperty` skips. Every value in the model's table is a string.
- `SettingDialect.MyProperties.FillBean`: the bean is a value that `setProperty` returns updated, or `None` when it throws. A write that throws part-way is taken to leave the bean as it was. The debug log line for a failed write is not modelled.
- `CacheUtils`, `GlobalLogFactory`, `FileReader`, `WatchKindEnum` and `LineSeparatorEnum`: these are factories, a logging singleton, file I/O and constant tables, with no logic of the core in them.
