# Hash brute-forcer search engine, in Dafny

This project models the search core of `hash_bruteforcer.py`, a desktop tool
that recovers the plaintext of a hex digest. It tries candidate strings until
one hashes to the target. It has three strategies:

- **Charset search** (`BruteForceWorker.run`): every string over a charset
  with a length in a range, shortest first. Within one length the order is
  `itertools.product` order.
- **Dictionary search** (`DictionaryBruteForceWorker.run`): every non-blank,
  stripped line of a word list.
- **Rainbow-table lookup** (`RainbowTableWorker.run`): lines of the form
  `digest:plaintext`, compared without hashing.

Modelled here:

- the digest dispatch `get_hash`;
- the three `run` loops, with their progress, match and finish signals, and the
  effect of `stop()`;
- the charset builder `get_charset`;
- the checks `start_bruteforce` makes before it starts a worker.

Modules:

- `Text`: Python's `str.strip()`, ASCII `str.lower()` and `str.split(':', 1)`.
- `Hashing`: `get_hash`. The hash functions are a parameter (`Hashlib`), and
  so is the user-loaded custom function.
- `Enumeration`: the candidate order of the charset search. `Product` is
  `itertools.product(charset, repeat=n)`; `Candidates` is the sequence of
  length tiers. `Rank` reads a string as an odometer, which gives each string
  its position.
- `Search`: the loop the three workers share. `Scan` tries items in order,
  reads the running flag before each one, counts it, and emits a progress
  signal every `every` items and at the last one. It stops at the first hit,
  then emits the closing signals.
- `Workers`: the three `run` methods. Each one is `Scan` with its own probe,
  reporting interval and shown text.
- `Charset`: `get_charset`.
- `Launch`: the validation in `start_bruteforce`.

The `stop()` call comes from another thread, and `stop()` only ever clears the
flag. It is therefore modelled as a cut point: `cancel == Some(k)` means the
worker first sees the flag cleared after `k` candidates; `None` means it never
does. A run's result is the sequence of signals it emits (`Progress`, `Match`,
`Finished`), the number of candidates it counted, and how it ended (`Matched`,
`Exhausted`, `Cancelled`).

On exhaustion the code emits a closing `Progress(100, "")`. This is not
always the only `(100, "")` signal. A report due at the last item shows that
item's text, and that text can itself be empty. There are three such cases:

- a blank last dictionary line, shown stripped;
- a blank last rainbow-table line, also shown stripped;
- the empty candidate when it is the only candidate. That happens when the
  minimum and maximum length are both 0, or when the charset is empty and the
  minimum length is 0, whatever the maximum.

The model follows the code.
`Scan` states that exactly one closing signal is appended to the progress
signals of the counted items.

## Model

| member | source | states |
|---|---|---|
| Text.StripShape | hash_bruteforcer.py:307 | `strip()` removes a whitespace prefix and a whitespace suffix; what is left neither starts nor ends with whitespace |
| Text.StripBounds | hash_bruteforcer.py:251 | what `strip()` keeps is one slice `s[i..j]`: everything before `i` and from `j` on is whitespace, and the kept part starts and ends with non-whitespace |
| Text.StripEmptyIffAllSpace | hash_bruteforcer.py:251-253 | a line strips to the empty string exactly when it is all whitespace, so the blank lines are the ones skipped |
| Text.LowerEqualIff | hash_bruteforcer.py:72-75 | two names lower-case to the same string exactly when they differ only in ASCII letter case |
| Text.SplitFirst | hash_bruteforcer.py:312-315 | `split(':', 1)` gives a result exactly when the line holds a colon; the first part has no colon, and the parts joined at the colon give back the line |
| Text.SplitFirstJoin | hash_bruteforcer.py:315 | splitting `before:after`, when `before` has no colon, gives back `before` and `after`, even when `after` holds colons |
| Hashing.GetHash | hash_bruteforcer.py:70-110 | the digest is the MD5 digest, the custom function's string, or a hashlib digest for the lower-cased name; a loaded custom function is used exactly for the name "custom" in any case, and falls back to MD5 when it raises; an unknown name gives MD5 |
| Hashing.GetHashIgnoresCase | hash_bruteforcer.py:72 | names that differ only in letter case give the same digest |
| Hashing.GetHashBranches | hash_bruteforcer.py:87-107 | checked in order, a `blake2` prefix selects BLAKE2 with a 32-byte digest, a `shake` substring selects SHAKE read to 128 bytes, and any available name selects its constructor; each falls back to MD5 when it raises |
| Hashing.GetHashFailureIsMd5 | hash_bruteforcer.py:76-110 | when the selected branch raises, the result is the MD5 digest |
| Enumeration.ExtendAt | hash_bruteforcer.py:184 | one more product position: entry `i` is prefix `i / n` followed by character `i % n` |
| Enumeration.ProductStep | hash_bruteforcer.py:184 | entry `i` of the length-`L` product is entry `i / n` of the length-`L-1` product followed by charset character `i % n` (the last position varies fastest) |
| Enumeration.ProductCount | hash_bruteforcer.py:174-175 | the product of length `L` holds `len(charset) ** L` strings |
| Enumeration.ProductShape | hash_bruteforcer.py:184 | every string of the length-`L` product has length `L` and is drawn from the charset |
| Enumeration.ProductMember | hash_bruteforcer.py:184 | a string is in the length-`L` product exactly when it has length `L` and is drawn from the charset |
| Enumeration.RankBound | hash_bruteforcer.py:184 | a string's odometer reading is below `len(charset) ** len(s)` |
| Enumeration.ProductAtRank | hash_bruteforcer.py:184 | every string over the charset sits in its product at the position given by its odometer reading |
| Enumeration.RankOfProduct | hash_bruteforcer.py:184 | with distinct characters, the odometer reading of entry `i` is `i`: position and reading are inverse |
| Enumeration.ProductDistinct | hash_bruteforcer.py:184 | with distinct characters, the product repeats no string |
| Enumeration.TiersCount | hash_bruteforcer.py:173-175 | the tiers of lengths `lo..hi-1` hold the sum of `len(charset) ** L` strings |
| Enumeration.CandidatesCount | hash_bruteforcer.py:173-175 | the total counted up front equals the number of candidates tried by the nested loops |
| Enumeration.TiersLength | hash_bruteforcer.py:180 | every tier string has a length in the range |
| Enumeration.TiersOver | hash_bruteforcer.py:184 | every tier string is drawn from the charset |
| Enumeration.TiersShape | hash_bruteforcer.py:180-184 | every tier string has a length in the range and is drawn from the charset |
| Enumeration.TiersAscending | hash_bruteforcer.py:180 | a later tier string is never shorter than an earlier one |
| Enumeration.TiersIndex | hash_bruteforcer.py:180-184 | entry `r` of the length-`len` tier sits after all shorter tiers, at `SumPow(n, lo, len) + r` |
| Enumeration.TiersPosition | hash_bruteforcer.py:180-184 | a string over the charset with length in range sits at the sum of the shorter tiers' sizes plus its odometer reading |
| Enumeration.TiersDistinct | hash_bruteforcer.py:180-184 | with distinct characters, no candidate is tried twice |
| Enumeration.CandidatesMember | hash_bruteforcer.py:180-184 | a string is a candidate exactly when it is drawn from the charset and its length is within `[min_length, max_length]` |
| Enumeration.CandidatesExactlyOnce | hash_bruteforcer.py:180-184 | with distinct characters, a valid string occurs at exactly one position: the shorter tiers' size plus its odometer reading |
| Enumeration.CandidateShape | hash_bruteforcer.py:180-184 | each candidate is drawn from the charset, with its length in range |
| Enumeration.CandidatesAscending | hash_bruteforcer.py:180 | candidates are tried shortest first |
| Enumeration.CandidatesAb | hash_bruteforcer.py:180-184 | the charset "ab" with lengths 1..2 yields a, b, aa, ab, ba, bb in that order |
| Search.Limit | hash_bruteforcer.py:169-170 | the worker reaches exactly the items before the one at which it first sees the flag cleared; the flag is read as set for every earlier item |
| Search.Percent | hash_bruteforcer.py:190 | the progress value is at most 100, and exactly 100 once every item is counted |
| Search.PercentMonotone | hash_bruteforcer.py:190 | the progress value never goes down as more items are counted |
| Search.TicksBelow | hash_bruteforcer.py:189-192 | every signal emitted while counting is a progress signal at or below the current percentage |
| Search.TicksMonotone | hash_bruteforcer.py:189-192 | percentages of successive progress signals never decrease |
| Search.TicksOnlyAtReports | hash_bruteforcer.py:189-192 | each progress signal carries the percentage and shown text of a counted item whose count is a multiple of the interval or equals the total |
| Search.TickCount | hash_bruteforcer.py:189 | the number of progress signals is one per full interval, plus one for the last item when the total is not a multiple of the interval |
| Search.LastTickFull | hash_bruteforcer.py:189-192 | when every item is counted, the last progress signal is 100% with the last item's text |
| Search.TraceProtocol | hash_bruteforcer.py:192-211 | every trace ends with `finished_task` exactly once; a match is followed directly by 100% for its text and the finish; percentages stay within 0..100 and never decrease |
| Search.Sweep | hash_bruteforcer.py:180-202 | the loop stops at the first hit, at the cut point, or after the last item; it emits exactly the progress signals of the items it counted; every item before the stopping one did not match |
| Search.Scan | hash_bruteforcer.py:177-211 | the loop counts exactly the items it reaches, up to the first hit or the cut point; earlier items did not match; a match is reported with 100% and the finish; 100% with empty text is added exactly when the run exhausted the items with the flag still set; a cancelled run only finishes |
| Workers.DictionaryProbe | hash_bruteforcer.py:251-258 | a line matches exactly when it is not blank and its stripped text hashes to the target; the match reports the stripped text |
| Workers.RainbowProbe | hash_bruteforcer.py:307-319 | a line without a colon never matches; a match is the line's table entry with the target as its lower-cased digest; no match means the line holds no entry for the target |
| Workers.RainbowEntry | hash_bruteforcer.py:311-318 | a line `stored:plaintext` is the entry (lower-cased `stored`, `plaintext`), and it matches exactly when `stored` lower-cases to the target; the plaintext may hold colons |
| Workers.CharsetHit | hash_bruteforcer.py:194-198 | the hit the charset probe reports is the candidate itself, hashing to the target |
| Workers.CharsetMisses | hash_bruteforcer.py:194-197 | candidates passed without a hit hash to something other than the target |
| Workers.CountCombinations | hash_bruteforcer.py:173-175 | the first loop's total equals the number of candidates |
| Workers.BruteForceRun | hash_bruteforcer.py:172-211 | the charset worker tries candidates in tier order with progress every 10000; a match is a candidate drawn from the charset, within the length range, that hashes to the lower-cased target; every earlier candidate does not; exhaustion means all `total_combinations` were tried without a stop |
| Workers.CountLines | hash_bruteforcer.py:233-236 | the first pass counts every line |
| Workers.DictionaryHit | hash_bruteforcer.py:251-258 | the dictionary hit is the non-blank stripped line, hashing to the target |
| Workers.DictionaryMisses | hash_bruteforcer.py:251-257 | lines passed without a hit are blank or hash to something else |
| Workers.DictionaryRun | hash_bruteforcer.py:231-268 | every line, blank ones too, counts towards progress every 1000 lines with the stripped line shown; a match is a non-blank stripped line that hashes to the target; every earlier line is blank or does not match |
| Workers.RainbowMisses | hash_bruteforcer.py:307-318 | lines passed without a hit hold no entry for the target |
| Workers.RainbowRun | hash_bruteforcer.py:287-329 | every line counts towards progress; a match is the first line whose entry's stored digest lower-cases to the target, and no earlier line holds such an entry |
| Charset.CodeRange | hash_bruteforcer.py:742-749 | the preset groups are runs of consecutive character codes, ascending |
| Charset.LowercaseLiteral | hash_bruteforcer.py:742-743 | the lowercase group is `string.ascii_lowercase`, "abcdefghijklmnopqrstuvwxyz" |
| Charset.UppercaseLiteral | hash_bruteforcer.py:744-745 | the uppercase group is `string.ascii_uppercase`, "ABCDEFGHIJKLMNOPQRSTUVWXYZ" |
| Charset.DigitsLiteral | hash_bruteforcer.py:746-747 | the digits group is `string.digits`, "0123456789" |
| Charset.PunctuationLiteral | hash_bruteforcer.py:748-749 | the special group is `string.punctuation`, the 32 characters from "!" to "~" in that module's order |
| Charset.CodeRangeMember | hash_bruteforcer.py:742-749 | a character is in a code run exactly when its code is within the run's bounds |
| Charset.PunctuationShape | hash_bruteforcer.py:748-749 | `string.punctuation` repeats no character and holds exactly the printable ASCII characters that are neither letters, digits nor space |
| Charset.PresetsShape | hash_bruteforcer.py:741-749 | the checked presets repeat no character and hold exactly the characters of the checked groups |
| Charset.FirstOccurrencesShape | hash_bruteforcer.py:751-755 | keeping first occurrences leaves no repetition and the same set of characters |
| Charset.FirstOccurrencesOfDistinct | hash_bruteforcer.py:751-755 | a charset without repetitions is left unchanged |
| Charset.FirstOccurrencesPrefix | hash_bruteforcer.py:751-755 | appending characters only appends: earlier first occurrences stay a prefix |
| Charset.FirstOccurrencesStep | hash_bruteforcer.py:753-755 | one more custom character is appended exactly when it is not yet present |
| Charset.AppendNew | hash_bruteforcer.py:751-755 | the custom loop appends the first occurrence of each new character, in order |
| Charset.CharsetShape | hash_bruteforcer.py:740-757 | the charset starts with the presets, repeats nothing, holds exactly the checked groups and the custom characters, and is empty exactly when nothing is checked or typed |
| Charset.GetCharset | hash_bruteforcer.py:740-757 | `get_charset` returns the first occurrences of the presets followed by the custom text, with the properties of `CharsetShape` |
| Launch.TotalPositive | hash_bruteforcer.py:657-668 | a non-empty charset and `min_length <= max_length` give at least one candidate, so the progress division is defined |
| Launch.Prepare | hash_bruteforcer.py:640-705 | the start is refused for a blank target first. On the charset tab it is then refused for an empty charset, and then for `min_length > max_length`. On a file tab it is refused for an empty path or one that is not a file. The custom-hash tab never starts. On each search tab the start succeeds exactly when none of these refusals applies. The job gets the stripped target and the tab's inputs; the charset and dictionary jobs also get the selected algorithm name. |

## Left out

- The hash algorithms themselves and `get_available_hash_algorithms` (lines
  24-67). `Hashlib` is a parameter that gives MD5, the set of available names,
  and a partial digest function.
- `load_custom_hash_function` (lines 113-153) and the global slot it fills
  (line 21). They compile and run user code. The loaded function is a parameter
  of `GetHash`, taken as a pure function of its input. User code may keep state
  or be nondeterministic; the model does not cover that. `Workers.BruteForceRun`
  and `Workers.DictionaryRun` state that hashing the hit again gives the
  reported digest. That statement rests on this assumption.
- The error message printed when the custom function raises (line 83). It is
  output only.
- Threads, Qt signals and slots. `stop()` is modelled as the cut point
  `cancel`. The GUI reacting to the signals (lines 707-738) is not modelled.
- File I/O and text decoding (lines 234-242, 290-298). A file is a sequence
  of lines as iteration yields them. Whether a path names a file
  (`os.path.isfile`) arrives as a boolean `isFile`. The counting pass and the
  search pass read the file twice; the model takes both passes to see the same
  lines. A file that grows between the passes can make the code count more
  lines than its total. The model does not cover that, so in the model the
  `min(100, …)` clamp at lines 248 and 304 never acts.
- The tab index falling outside 0-3 (lines 703-705). The tab is a datatype,
  so no other value exists.
- The GUI and command-line code (lines 331-639, 770-982), apart from
  `start_bruteforce` and `get_charset`.
- Search.Percent, Search.Sweep, Search.Scan, Workers.BruteForceRun,
  Workers.DictionaryRun, Workers.RainbowRun: the percentage is computed as
  `min(100, tried * 100 / total)` in integers. The code computes
  `int((tried / total) * 100)` in floating point. The two can differ by one in
  either direction. For example, 29 of 100 gives 28.999… in floating point, so
  28 instead of 29. With a very large total, rounding can also give one more
  than the integer value. `Percent`'s own contract states only the bounds and
  the 100 at the last item, which hold for both. The run traces, though, fix
  the integer value at every report point, so a trace's `Progress` value can
  be one off from the code's. For a 100000-line dictionary, the report after
  line 29000 is `Progress(29, …)` in the model; the code's
  `int((29000 / 100000) * 100)` is 28.
- Text.Lower: lower-cases only the ASCII letters. Python's `str.lower()` maps
  all of Unicode.
- Hashing.GetHash: the exception handler at lines 108-110 covers all of
  lines 72-107. A failing lookup or digest call, such as the name "blake2x"
  failing at line 89, is modelled: `digest` returns `None`, and the result is
  MD5. Only a failing `hash_type.lower()` on a non-string name is left out,
  because the model's types exclude it.
- Hashing.GetHash: `Raised` stands for a custom function raising an
  `Exception` subclass, which lines 82 and 108 catch. A `BaseException` that
  is not an `Exception`, such as `SystemExit` from `sys.exit()`, escapes
  `get_hash` and ends `run()` without `finished_task`. That path is not
  modelled; `Search.Protocol` assumes every run reaches its end.
- Enumeration.Candidates: built as one sequence. `itertools.product` yields
  it lazily. The order and the contents are the same.
