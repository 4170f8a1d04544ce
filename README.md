# emails_traiders: identifier lookup and email harvesting, modelled in Dafny

The script `emails_traiders.py` does two jobs.

- `process_traders` reads a list of taxpayer identifiers (INN) and an array of
  organisation records. It indexes the organisations by their `inn` field, so the last
  record with a given `inn` wins. For every listed identifier that is found, it writes one
  CSV row: `inn`, `ogrn` (or `""`) and `address` (or `""`).
- `extract_emails` walks every record of a message dataset and collects every string it
  holds, at any depth (`collect_strings`). It finds the email addresses in those strings
  with `find_emails_in_text`, which is `re.findall` of
  `[A-Za-z0-9._%+-]+@[A-Za-z0-9.-]+\.[A-Za-z]{2,}`. It then gathers them, per truthy
  `publisher_inn`, into a set.

The model has one module per part.

- `JsonValues` (json_values.dfy): parsed JSON values, Python truthiness, `dict.get`, and
  the dictionary keys records are filed under. Python's `True == 1 == 1.0` is kept.
- `StringCollector` (collect_strings.dfy): `collect_strings` is a recursive function
  `Collect` and a recursive method `CollectStrings` with the script's loops. They are
  proved equal. `Collect` is also proved to have exactly the string leaves of the value,
  in depth-first order.
- `EmailPattern` (email_pattern.dfy): a hand-written scanner that follows the regex
  engine's backtracking order.
  - `MatchAt` is the engine at one start position: a greedy local part, a greedy domain
    that backs off to the last dot followed by two letters, then every following letter.
  - `MatchAt` is proved to return the longest substring in the pattern's language
    (`IsEmail`) that starts there, and to return nothing exactly when no such substring
    exists.
  - `FindEmails` is findall: leftmost match, then resume at its end. It is proved to
    report leftmost, longest, non-overlapping matches, in order, repeats included.
- `EmailExamples` (email_examples.dfy): worked instances.
  - The text `contact: a.b+1@sub.example.co, invalid@, @nodomain` yields only
    `a.b+1@sub.example.co`.
  - Repeated addresses are all reported.
  - The domain run backs off to the last usable dot.
- `TraderIndex` (traders.dfy): `str.strip`, the identifier list, the index, the rows, and
  `process_traders` as a whole. The loops are methods, each proved equal to a fold
  function about which the properties are proved.
- `EmailHarvest` (email_harvest.dfy): the aggregation loop of `extract_emails`, proved
  equal to a fold `Aggregate`. Also the conversion of each set into a list, and
  `extract_emails` as a whole.

File reading and writing are parameters and results: the lines of the list file, the
parsed JSON documents, the rows of the CSV file, and the map written as JSON.

## Model

| member | source | states |
|---|---|---|
| JsonValues.Lookup | emails_traiders.py:89 | `dict.get` finds a value exactly when some member has the key, and the value found is that key's member value |
| JsonValues.LookupDistinct | emails_traiders.py:89 | on a dict (distinct keys) `get(key)` returns `v` exactly when `key: v` is a member |
| JsonValues.GetOr | emails_traiders.py:109-110 | on a dict, `get(name, default)` is the value stored under `name` when the key is present, and the default when it is absent |
| JsonValues.KeyOf | emails_traiders.py:94 | a string `s` is filed under `KStr(s)` and only a string is; a number under its own value; `True` under the number 1, so `True`, `1` and `1.0` share a key |
| JsonValues.FieldKey | emails_traiders.py:89-94 | a record is filed exactly when its field is truthy, and under the string key `s` exactly when the field is the non-empty string `s` |
| StringCollector.Values | emails_traiders.py:156 | `obj.values()`: one value per member, in member order |
| StringCollector.CollectScalars | emails_traiders.py:151-153 | a string collects to itself, and numbers, booleans and null collect to nothing |
| StringCollector.CollectItemsAppend | emails_traiders.py:158-161 | collecting a list is collecting its parts one after the other |
| StringCollector.CollectItemsCons | emails_traiders.py:158-161 | a list's strings are its first element's strings, then the rest's |
| StringCollector.CollectMembersIsValues | emails_traiders.py:154-157 | a dict collects like the list of its values |
| StringCollector.CollectLength | emails_traiders.py:140-164 | as many strings are collected as the value has string leaves |
| StringCollector.CollectItemsLength | emails_traiders.py:158-161 | the same count over the elements of a list |
| StringCollector.CollectMembersLength | emails_traiders.py:154-157 | the same count over the values of a dict |
| StringCollector.CollectMembership | emails_traiders.py:140-164 | a string is collected exactly when it occurs as a leaf value at some depth (dict keys are never collected) |
| StringCollector.CollectItemsMembership | emails_traiders.py:158-161 | a string is collected from a list exactly when one of its elements has it as a leaf |
| StringCollector.CollectMembersMembership | emails_traiders.py:154-157 | a string is collected from a dict exactly when one of its values has it as a leaf |
| StringCollector.CollectStrings | emails_traiders.py:140-164 | the loops appending each recursive result compute exactly `Collect` |
| EmailPattern.RunEnd | emails_traiders.py:136 | a greedy `+` run: every character up to the end is in the class, and the next one is not |
| EmailPattern.LastTldDot | emails_traiders.py:136 | backtracking the domain run: the last dot in range followed by two letters, or none when there is no such dot |
| EmailPattern.MatchAt | emails_traiders.py:136 | a match at `p` is non-empty and inside the text |
| EmailPattern.AfterAt | emails_traiders.py:136 | after the `@`, a match takes at least one domain character, the dot and two letters |
| EmailPattern.RunEndCovers | emails_traiders.py:136 | a greedy run never stops short of the end of a run of its class |
| EmailPattern.MatchAtSound | emails_traiders.py:136 | what the engine finds at `p` is in the pattern's language |
| EmailPattern.MatchAtLongest | emails_traiders.py:136 | every match of the pattern starting at `p` is found, and the engine's is at least as long |
| EmailPattern.MatchAtNone | emails_traiders.py:136 | nothing is found at `p` exactly when no substring starting at `p` matches the pattern |
| EmailPattern.NextMatch | emails_traiders.py:137 | a match found by the search from `pos` starts at or after `pos` and lies inside the text |
| EmailPattern.NextMatchLeftmost | emails_traiders.py:137 | the search from `pos` reports the engine's match at the first start that has one, and reports nothing only when no start from `pos` has one |
| EmailPattern.Spans | emails_traiders.py:137 | the successive matches lie inside the text, and each starts at or after the end of the previous one |
| EmailPattern.Cut | emails_traiders.py:137 | one substring per span, cut at that span |
| EmailPattern.SpanIsLeftmostMatch | emails_traiders.py:137 | the `i`-th match is what the engine finds at the first start, after the previous match, where it finds anything |
| EmailPattern.SpansExhaustive | emails_traiders.py:137 | after the last match the engine finds nothing |
| EmailPattern.SpansCharacterization | emails_traiders.py:136-137 | each match reported is in the pattern's language and is the longest from its start, and no match starts between it and the previous one |
| EmailPattern.SpansTail | emails_traiders.py:136-137 | no match of the pattern starts after the last one reported |
| EmailPattern.SpansOrdered | emails_traiders.py:137 | matches are reported left to right without overlap |
| EmailPattern.FindEmailsShape | emails_traiders.py:123-137 | every element returned is a match of the pattern, cut from the text at ordered, non-overlapping spans |
| EmailPattern.FindEmailsEmpty | emails_traiders.py:125-126 | the empty list is returned exactly when no substring of the text is an email |
| EmailExamples.SampleMatches | emails_traiders.py:136-137 | `contact: a.b+1@sub.example.co, invalid@, @nodomain` yields exactly `["a.b+1@sub.example.co"]` |
| EmailExamples.TwiceMatches | emails_traiders.py:129 | an address that occurs twice is reported twice |
| EmailExamples.DottedBacksOff | emails_traiders.py:136 | in `ab@x.yz.c1` the domain run backs off to the last dot that two letters follow, so the match is `ab@x.yz` |
| TraderIndex.LeadingSpaces | emails_traiders.py:50 | the whitespace prefix that `strip` removes is maximal |
| TraderIndex.ContentEnd | emails_traiders.py:50 | the whitespace suffix that `strip` removes is maximal |
| TraderIndex.Strip | emails_traiders.py:50 | `line.strip()` is the line with all leading and trailing whitespace removed, and is empty exactly when the line is all whitespace |
| TraderIndex.StripUnique | emails_traiders.py:50 | that description of the stripped line determines it |
| TraderIndex.InnList | emails_traiders.py:50 | no more identifiers than lines, each non-empty and without whitespace at either end |
| TraderIndex.InnListMembers | emails_traiders.py:50 | an identifier is listed exactly when it is the non-empty strip of some line |
| TraderIndex.InnListEmpty | emails_traiders.py:50 | the list is empty exactly when every line strips to nothing (by `Strip`, every line is blank) |
| TraderIndex.IndexOf | emails_traiders.py:87-94 | every indexed organisation is a non-empty dict |
| TraderIndex.IndexKeys | emails_traiders.py:87-94 | a key is indexed exactly when some organisation has that truthy `inn` |
| TraderIndex.IndexLastWins | emails_traiders.py:93-94 | an `inn` maps to the last organisation carrying it |
| TraderIndex.BuildIndex | emails_traiders.py:87-94 | the index loop computes `IndexOf` of the organisations |
| TraderIndex.RowFor | emails_traiders.py:109-111 | a row carries the identifier, then the record's own `ogrn` and `address` values when present and `""` for each one missing |
| TraderIndex.Matched | emails_traiders.py:104-106 | the identifiers with a hit, in list order, and exactly those |
| TraderIndex.RowsAreMatched | emails_traiders.py:104-115 | one row per matched identifier, in list order, each built from the indexed organisation; never more rows than identifiers |
| TraderIndex.MatchedAppend | emails_traiders.py:104-106 | one more identifier adds itself to the matched list exactly when it has a hit |
| TraderIndex.HitIsPresence | emails_traiders.py:105-106 | against the index, `if org:` is just "the key is present" |
| TraderIndex.EmitRows | emails_traiders.py:104-115 | the row loop computes `RowsOf` of the identifiers |
| TraderIndex.ProcessTraders | emails_traiders.py:50-115 | no identifiers: nothing written; organisations not a list: error; otherwise the rows for the list against the index |
| EmailHarvest.UnionFoundMembers | emails_traiders.py:228-232 | an element is gathered from the texts exactly when the finder reports it for one of them |
| EmailHarvest.EmailsInMembers | emails_traiders.py:228-232 | an email is gathered exactly when `find_emails_in_text` reports it for one of the strings |
| EmailHarvest.GatherByKeys | emails_traiders.py:209-222 | the publishers are exactly the truthy `publisher_inn` values of the records |
| EmailHarvest.GatherByContents | emails_traiders.py:209-232 | each publisher's set is the union over that publisher's records |
| EmailHarvest.GatherBySkips | emails_traiders.py:214-217 | a record without a truthy `publisher_inn` changes nothing, wherever it stands |
| EmailHarvest.AggregateContents | emails_traiders.py:209-232 | every publisher appears, even one whose records hold no email, and its set is the union of its records' emails |
| EmailHarvest.AggregateSkips | emails_traiders.py:214-217 | the same skip property for the email aggregation |
| EmailHarvest.AggregateStep | emails_traiders.py:212-232 | one record more: unchanged when skipped, else the publisher's set (created empty) grows by the record's emails |
| EmailHarvest.EmailsInStep | emails_traiders.py:228-232 | one string more adds exactly the emails found in it |
| EmailHarvest.AddFound | emails_traiders.py:231-232 | adding the found emails grows only that publisher's set, by exactly those emails |
| EmailHarvest.AddEmails | emails_traiders.py:228-232 | the loop over a record's strings grows only that publisher's set, by exactly the emails in them |
| EmailHarvest.ExtractEmails | emails_traiders.py:209-232 | the record loop computes `Aggregate` of the messages |
| EmailHarvest.SetToList | emails_traiders.py:236 | `list(emails_set)` lists each element of the set exactly once |
| EmailHarvest.Serializable | emails_traiders.py:235-237 | the same publishers, each with its set listed once per element |
| EmailHarvest.HarvestEmails | emails_traiders.py:204-237 | not a list: error and nothing written; otherwise the publishers of `Aggregate`, each with its set as a list |

## Left out

- File handling is not modelled: opening, reading, encodings, missing files, read and
  write errors, and the messages printed to stderr and stdout. The lines of the list file
  and the parsed JSON documents are parameters. The CSV rows and the output map are
  results. `main` and `os.path.isfile` are left out too. A missing or unreadable input
  file and invalid JSON return before any work is done; they are not distinguished from
  one another.
- JSON parsing is not modelled. A parsed object is a member sequence in file order.
  `json.load` keeps only the last of repeated keys, so an object it returns has
  distinct keys. The model requires this (`DistinctKeys`) of every organisation and
  message record, through `KeyableField`. Objects nested inside a record are not
  required to have distinct keys. If one repeats a key, `Collect` collects the strings
  of every member, where Python sees only the last value. Numbers are exact reals:
  `NaN`, `Infinity` and float rounding are left out.
- Writing the CSV and JSON files is not modelled: the header row, quoting, how
  non-string cells print, `indent=4`, and `ensure_ascii=False`. JSON output turns keys
  into strings; the model keeps the `Key` value. Python keeps the first of `True`, `1`
  and `1.0` as the printed key; the model merges them but does not record which
  spelling is printed.
- Two inputs on which the script raises are preconditions, not modelled error paths:
  - an organisation or message that is not a dict (`AttributeError` on `.get`);
  - a truthy `inn` or `publisher_inn` that is a list or dict (`TypeError: unhashable type`).
  These are the `Indexable`, `Harvestable` and `KeyableField` predicates.
- Python's recursion limit is not modelled. `collect_strings` raises `RecursionError`
  on a value nested deeply enough, but `Collect` and `CollectStrings` are total and
  collect values of any depth.
- EmailHarvest.Serializable and EmailHarvest.HarvestEmails: the output dict lists the
  publishers in the order of their first record with that `publisher_inn`, and
  `json.dump` writes them in that order. The model's result is a `map`, which has no
  order, so the contracts state the publishers and their emails but not the order in
  which they are written.
- EmailHarvest.SetToList: the order of `list(set)` depends on string hashing, so the
  model leaves it open; the contract states only that each element is listed once.
- EmailHarvest.AddFound and EmailHarvest.AddEmails: these are the two inner loops of
  `extract_emails`, written as methods of their own. They receive the map and return the
  updated one rather than sharing it with the caller.
- `str.strip` covers the characters Python's `str.isspace` accepts, written out one by
  one. Line splitting of the list file is part of file reading and is left out: the
  lines, with their line endings, are the input.
