# Silent Scout: capture, vault, ingest and classify

Silent Scout has two halves. The **agent** is a MicroPython device. It
keeps a locality-id counter in non-volatile storage (NVS). It runs a
triple WiFi scan, merging access points by BSSID. It appends each
session's access points to a `;`-delimited *data vault* file. The **HQ**
reads that vault with a header-keyed CSV reader and converts each record
to an observation. It appends the batch to the `observations` table and
classifies rows with configurable tag rules, a vendor table and
security-standard labels.

This project models that pipeline in Dafny and proves properties of it.
It is split into one module per concern:

| file | module | models |
|---|---|---|
| `common.dfy` | `Common` | `Option`, bytes |
| `text.dfy` | `Text` | `str(int)` and `int(str)`, `replace`, `lower`/`upper`, slicing, `in` on strings, `join` |
| `counter.dfy` | `LocalityCounter` | `get_next_id`, `reset_locality_id` (class over the NVS slot) |
| `scan.dfy` | `Scan` | BSSID formatting, `do_triscan` (dictionary merged in a loop) |
| `vault.dfy` | `Vault` | record encoding, `save_to_csv` (file appended in a loop) |
| `csv.dfy` | `Csv` | line splitting, the `;` reader's state machine, DictReader lookup |
| `ingest.dfy` | `Ingest` | record conversion, `run_ingest` |
| `store.dfy` | `Store` | `init_db`, `save_to_db` (append-only table class) |
| `analyser.dfy` | `Analyser` | `get_vendor`, `get_security_label`, `analyze_threat_tags` |
| `roundtrip.dfy` | `RoundTrip` | the vault written by the agent, read back by the HQ |

Code that changes state in the source is modelled as classes and
methods with loops:
- the NVS slot is the class `NvsCounter`;
- the vault file is the class `VaultFile`;
- the table is the class `ObservationTable`;
- the scan dictionary and the ingest batch are built in loops.

Each of these methods is proved against a specification function, and
lemmas state the properties of that function. `analyze_threat_tags` is a
method with a loop over the rules. It is proved equal to the function
`Classify`, and the rule-order properties are proved as lemmas about
`Tags`.

Some inputs are parameters rather than computed:
- the radio's scan results are a sequence of three passes;
- the UTF-8 decoding of SSID bytes is `decode`, where `None` means it raised;
- the arrival timestamp is `now`;
- a storage error in the database is `storageFails`;
- an integer that SQLite cannot bind (outside the signed 64-bit range)
  raises an `OverflowError` that neither `save_to_db` nor `run_ingest`
  catches; the model reports it as `OverflowRaised` and `Aborted`;
- the vendor table, security standards, tag rules and default label are values.

Two behaviours of the code worth noting:
- The HQ reader always takes the first line as the header. Nothing
  recognises a header by its content. A record is rejected for a missing
  column only when one of the required names is absent from that first
  line (`Ingest.MissingColumnRejectsAll`). A header with extra or
  reordered columns still works, because lookup is by name.
- The vendor key is the first six characters of the address with colons
  removed and upper-cased. These need not be hex digits.

## Model

| member | source | states |
|---|---|---|
| LocalityCounter.NvsCounter.constructor | scout_agent/scout/logic.py:30-34 | a fresh namespace has no `id_loc` key |
| LocalityCounter.NvsCounter.GetNextId | scout_agent/scout/logic.py:23-39 | returns the stored value plus one, a missing key reading as 0, and leaves that value stored; when the increment leaves the signed 32-bit range the store raises: no id, slot unchanged |
| LocalityCounter.NvsCounter.ResetLocalityId | scout_agent/scout/logic.py:122-128 | the slot holds 0 afterwards, so the next allocation returns 1 |
| LocalityCounter.Allocate | scout_agent/scout/logic.py:31-37 | one allocation: the stored value plus one (1 for a missing key), and no id exactly when the slot already holds the largest 32-bit value |
| LocalityCounter.Run | scout_agent/scout/logic.py:23-39 | n successive allocations yield n results |
| LocalityCounter.RunCountsUp | scout_agent/scout/logic.py:31-38 | from a stored v ≥ 0, n allocations that fit in 32 bits return v+1, …, v+n |
| LocalityCounter.FreshCounterStartsAtOne | scout_agent/scout/logic.py:31-38 | from a missing or reset key, the ids handed out are 1, 2, …, n |
| LocalityCounter.RunStrictlyIncreasing | scout_agent/scout/logic.py:36-38 | successful allocations strictly increase and all exceed the starting value, so no id repeats |
| Scan.HexByte | scout_agent/scout/logic.py:60 | `"%02x"`: two lowercase hex digits whose value is the byte |
| Scan.FormatBssid | scout_agent/scout/logic.py:60 | no bytes give the empty text; n bytes give 3n−1 characters |
| Scan.FormatBssidChars | scout_agent/scout/logic.py:60 | the formatted address holds only lowercase hex digits and colons |
| Scan.FormatBssidAt | scout_agent/scout/logic.py:60 | byte k is at characters 3k and 3k+1; a colon follows every byte but the last |
| Scan.SixByteAddress | scout_agent/scout/logic.py:99 | a 6-byte address gives 17 characters with colons at positions 2, 5, 8, 11 and 14 |
| Scan.FormatBssidInjective | scout_agent/scout/logic.py:59-61 | distinct addresses have distinct keys, so merging by key is merging by address |
| Scan.Seen | scout_agent/scout/logic.py:54-58 | the tuples scanned are exactly those delivered by the successful passes: each delivered tuple is there, and each one there came from some pass |
| Scan.MergeAps | scout_agent/scout/logic.py:58-61 | every dictionary entry is stored under its own formatted BSSID |
| Scan.MergeStep | scout_agent/scout/logic.py:61 | storing one tuple sets its key and changes no other entry |
| Scan.MergedKeys | scout_agent/scout/logic.py:54-61 | a key is in the dictionary exactly when some scanned tuple carries it |
| Scan.LastWriteWins | scout_agent/scout/logic.py:58-61 | each key maps to the last scanned tuple carrying it |
| Scan.SeenPrefix | scout_agent/scout/logic.py:54-58 | the tuples of the first c passes are a prefix of all tuples scanned |
| Scan.SeenStep | scout_agent/scout/logic.py:54-58 | one more pass appends exactly what it delivered |
| Scan.EarlierEntriesKept | scout_agent/scout/logic.py:54-65 | every key merged by earlier passes is still present at the end |
| Scan.FailedPassAddsNothing | scout_agent/scout/logic.py:62-63 | a pass whose scan raises leaves the dictionary as it was |
| Scan.MergeBatch | scout_agent/scout/logic.py:57-61 | after a batch, the dictionary is the merge of everything scanned so far; the key order stays duplicate-free and covers the keys |
| Scan.DoTriscan | scout_agent/scout/logic.py:41-69 | after exactly three cycles, returns one tuple per distinct formatted BSSID seen in any successful pass, each the last one seen with that BSSID |
| Scan.ValuesCoverKeys | scout_agent/scout/logic.py:69 | listing the values along the duplicate-free key order gives one tuple per key, with distinct keys |
| Vault.SsidText | scout_agent/scout/logic.py:93-97 | the SSID cell holds no double quote; a decoded name without quotes is written unchanged |
| Vault.HiddenFlag | scout_agent/scout/logic.py:103 | the HIDDEN cell reads back as 1 for a hidden network and 0 otherwise |
| Vault.RecordCells | scout_agent/scout/logic.py:99-106 | one cell per header column; the SSID cell is between double quotes with no quote inside |
| Vault.EncodeLine | scout_agent/scout/logic.py:106 | a record starts with the locality id, a `;` and the SSID's opening quote |
| Vault.EncodeAll | scout_agent/scout/logic.py:91-106 | one record per access point, in `results` order |
| Vault.EncodeAllExtend | scout_agent/scout/logic.py:91-106 | encoding one more access point appends exactly its record |
| Vault.VaultFile.constructor | scout_agent/scout/logic.py:80-84 | no vault file exists yet |
| Vault.VaultFile.SaveToCsv | scout_agent/scout/logic.py:71-106 | afterwards the file exists; the header is appended exactly when it did not exist before; then one record per access point in order; earlier lines are untouched |
| Text.IntToString | scout_agent/scout/logic.py:106 | `str(i)` is non-empty decimal digits with a leading `-` only for negative i |
| Text.ParseInt | scout_hq/ingest.py:44 | `int(s)` succeeds exactly on an optional `-` followed by one or more digits, and then gives the number they spell |
| Text.DigitsValueOfNat | scout_hq/ingest.py:44 | the digits of `str(n)` have the value n |
| Text.NegativeRoundTrip | scout_hq/ingest.py:44 | `int(str(i)) == i` for negative i |
| Text.IntRoundTrip | scout_hq/ingest.py:44 | `int(str(i)) == i` for every integer |
| Text.IntToStringInjective | scout_hq/modules/analyser.py:41 | distinct integers have distinct decimal spellings |
| Text.RemoveChar | scout_agent/scout/logic.py:95 | `replace(c, '')` leaves no c, keeps every other character that occurs, and changes nothing when c is absent |
| Text.RemoveCharAppend | scout_hq/modules/analyser.py:25 | removing a character distributes over concatenation |
| Text.Lower | scout_hq/modules/analyser.py:61 | same length, each character lower-cased, no upper-case letter left |
| Text.Upper | scout_hq/modules/analyser.py:25 | same length, each character upper-cased, no lower-case letter left |
| Text.Prefix | scout_hq/modules/analyser.py:25 | `s[:n]` is a prefix of s, at most n long and exactly n long when s is long enough |
| Text.Contains | scout_hq/modules/analyser.py:73 | `k in s` holds exactly when k occurs at some position of s |
| Text.Join | scout_hq/modules/analyser.py:92 | joining no parts gives the empty text; one part gives that part |
| Csv.LineEnd | scout_hq/ingest.py:35 | the first line break, with no break before it |
| Csv.SplitLines | scout_hq/ingest.py:35-39 | no line holds a break; how the text splits at `\n`, `\r\n` and lone `\r` is stated by the three lemmas below |
| Csv.LineEndAt | scout_hq/ingest.py:35 | a line ends at the first break character after it |
| Csv.SplitAtLf | scout_hq/ingest.py:35 | a line ended by `\n` is split off, and the rest is read on |
| Csv.SplitAtCrLf | scout_hq/ingest.py:35 | a line ended by `\r\n` is split off as one line, with no empty line between |
| Csv.SplitAtLoneCr | scout_hq/ingest.py:35 | a line ended by a `\r` not followed by `\n` is split off, and the rest is read on |
| Csv.Fields | scout_hq/ingest.py:37-39 | reading a non-empty line yields at least one cell |
| Csv.ParseRow | scout_hq/ingest.py:37-39 | a line yields no cells exactly when it is empty |
| Csv.PlainRun | scout_hq/ingest.py:37 | unquoted text without delimiter or quote is taken into the cell |
| Csv.QuotedRun | scout_hq/ingest.py:36-37 | text without quotes inside a quoted cell is taken into the cell |
| Csv.CellEnds | scout_hq/ingest.py:37 | the end of the line or a `;` closes the current cell |
| Csv.QuotedCellRead | scout_hq/ingest.py:36-37 | a quoted cell is read as its text without the quotes |
| Csv.PlainCellRead | scout_hq/ingest.py:37 | a bare cell is read as its text |
| Csv.CellThenRest | scout_hq/ingest.py:36-37 | a well-formed cell followed by `;` or the end of the line yields its value, then reading goes on |
| Csv.ParseJoined | scout_hq/ingest.py:36-37 | well-formed cells joined by `;` read back as their values |
| Csv.LastIndexOf | scout_hq/ingest.py:37 | the last position of a name in the header, or −1 when it is absent |
| Csv.Lookup | scout_hq/ingest.py:44-50 | `row[key]` raises KeyError exactly when the key is not in the header; any value it yields is a cell of the row |
| Csv.HeaderOf | scout_hq/ingest.py:37 | the field names are the first line's cells: none exactly when there is no line or the first line is empty |
| Csv.DataRows | scout_hq/ingest.py:39 | empty lines after the header yield no record; there are fewer records than lines |
| Ingest.Coerce | scout_hq/ingest.py:40-55 | an accepted record carries the batch timestamp, needs the SSID and MAC / BSSID columns, has the RSSI parsed from its RSSI cell and an SSID that is one of its cells |
| Ingest.Decode | scout_hq/ingest.py:35-55 | every observation decoded from a text carries the one timestamp; there are no more observations than lines; a text whose first line is empty or missing yields none |
| Ingest.CoerceAccepts | scout_hq/ingest.py:40-55 | a record is accepted exactly when SSID and MAC / BSSID are header columns and the five integer columns parse |
| Ingest.CoerceFields | scout_hq/ingest.py:42-51 | an accepted observation carries the batch timestamp, the five parsed integers, and the SSID and MAC cells as read |
| Ingest.Accepted | scout_hq/ingest.py:39-55 | no more observations than records, all with the one batch timestamp |
| Ingest.AcceptedAppend | scout_hq/ingest.py:39-55 | records are converted one at a time, and file order is kept |
| Ingest.AllWellFormed | scout_hq/ingest.py:39-52 | records that all convert are all kept |
| Ingest.OneMalformedRecord | scout_hq/ingest.py:39-55 | one malformed record among N good ones yields exactly N observations |
| Ingest.MissingColumnRejectsAll | scout_hq/ingest.py:37-55 | a header lacking any required column name yields no observation at all |
| Ingest.CollectRows | scout_hq/ingest.py:31-55 | the read loop keeps exactly the converting records, in order, stamped with the one timestamp |
| Ingest.RunIngest | scout_hq/ingest.py:13-73 | the table is initialised first; a missing or unreadable source saves nothing; an empty batch is never saved; a batch with an integer too wide for SQLite aborts the run with nothing saved; otherwise the batch is appended with ids from the next free id on and the counter advanced by its length, or nothing when storage fails |
| Store.Numbered | scout_hq/modules/db_manager.py:49-56 | the inserted rows are the batch in order, with consecutive ids from the next free id |
| Store.AppendKeepsIds | scout_hq/modules/db_manager.py:26 | appending a batch keeps ids strictly increasing and below the next free id |
| Store.ObservationTable.constructor | scout_hq/modules/db_manager.py:24-36 | a database without the table, with ids starting at 1 |
| Store.ObservationTable.InitDb | scout_hq/modules/db_manager.py:20-40 | the table exists afterwards; existing rows and the id counter are unchanged, so repeating it changes nothing |
| Store.ObservationTable.SaveToDb | scout_hq/modules/db_manager.py:44-61 | an empty batch returns 0 and changes nothing; a missing table returns 0; a row with an integer outside the signed 64-bit range raises OverflowError, uncaught, and nothing is inserted; a storage error returns 0 and adds nothing; otherwise the batch is appended in order with fresh ids and its length returned; existing rows are never altered |
| Analyser.Oui | scout_hq/modules/analyser.py:25 | the key has at most six characters, no colon and no lower-case letter; it has six when the address has six non-colon characters |
| Analyser.GetVendor | scout_hq/modules/analyser.py:13-26 | the vendor registered under the key, or "Unknown Vendor" |
| Text.RemoveCharCons | scout_hq/modules/analyser.py:25 | removing a character from a string with a first character drops that character exactly when it is the one removed |
| Text.LowerCons | scout_hq/modules/analyser.py:61 | lower-casing maps each character on its own |
| Text.UpperCons | scout_hq/modules/analyser.py:25 | upper-casing maps each character on its own |
| Analyser.RemoveColonLower | scout_hq/modules/analyser.py:25 | removing colons commutes with lower-casing |
| Analyser.RemoveColonUpper | scout_hq/modules/analyser.py:25 | removing colons commutes with upper-casing |
| Analyser.OuiIgnoresCase | scout_hq/modules/analyser.py:25 | the key does not depend on the letter case of the address |
| Analyser.OuiIgnoresColon | scout_hq/modules/analyser.py:25 | the key does not depend on where colons are written |
| Analyser.VendorIgnoresCaseAndColons | scout_hq/modules/analyser.py:25-26 | spellings of an address that differ in case or colons name the same vendor |
| Analyser.GetSecurityLabel | scout_hq/modules/analyser.py:29-41 | the configured label under `str(code)`, or "Unknown (code)" when there is no entry or it has no label |
| Analyser.SecurityLabelIgnoresOtherKeys | scout_hq/modules/analyser.py:40-41 | the lookup is by exact spelling: an entry under any key other than `str(code)`, including one that reads as the same number, never changes that code's label |
| Analyser.LeadingZeroKeyIgnored | scout_hq/modules/analyser.py:40-41 | `"07"` reads as 7, yet an entry under `"07"` leaves the label of code 7 unchanged |
| Analyser.UnknownLabelsDistinct | scout_hq/modules/analyser.py:41 | unlabelled codes stay distinguishable: distinct codes get distinct fallback labels |
| Analyser.PyStr | scout_hq/modules/analyser.py:61 | `str(v)`: an integer's text reads back as the integer; a text is itself |
| Analyser.PyEquals | scout_hq/modules/analyser.py:87 | `==` on cell values: equal values are equal; text and None equal only themselves; `True`/`False` equal the integers 1/0 |
| Analyser.PyEqualsIsEquivalence | scout_hq/modules/analyser.py:87 | flag equality (where `True == 1`) is reflexive, symmetric and transitive |
| Analyser.AnyContains | scout_hq/modules/analyser.py:73 | `any(k in text for k in keywords)` holds exactly when some keyword occurs in the text |
| Analyser.Matches | scout_hq/modules/analyser.py:70-88 | an `ssid` or `vendor` rule fires exactly when one of its keywords occurs in the lower-cased SSID or vendor name; a `flag` rule exactly when its field is in the row and equals the configured value; a rule of any other source never fires |
| Analyser.Tags | scout_hq/modules/analyser.py:66-88 | at most one tag per rule |
| Analyser.TagsAppend | scout_hq/modules/analyser.py:66-88 | tags follow rule declaration order: the rules of a first part tag before those of the rest |
| Analyser.TagsCharacterised | scout_hq/modules/analyser.py:66-88 | each firing rule contributes its label exactly once; a label is tagged exactly when a rule with that label fires |
| Analyser.NoTagsIffNoRuleFires | scout_hq/modules/analyser.py:66-93 | there are no tags exactly when no rule fires |
| Analyser.UpperCaseKeywordNeverMatches | scout_hq/modules/analyser.py:61-80 | keywords are not lower-cased, so a keyword with an upper-case letter never matches |
| Analyser.EmptyKeywordsNeverMatch | scout_hq/modules/analyser.py:72-80 | an SSID or vendor rule with no keywords never fires |
| Analyser.Classify | scout_hq/modules/analyser.py:44-93 | a classification exists exactly when the row has an SSID and a textual MAC; otherwise the lookup raises |
| Analyser.DefaultWhenNothingFires | scout_hq/modules/analyser.py:91-93 | when no rule fires, the result is the default label, "Stationary AP" when none is configured |
| Analyser.BothFire | scout_hq/modules/analyser.py:66-88 | two firing rules tag their labels in declaration order |
| Analyser.HotspotName | scout_hq/modules/analyser.py:61-73 | "Free_WiFi_Zone" lower-cased contains "free_wifi" |
| Analyser.HoneypotExample | scout_hq/modules/analyser.py:44-93 | an SSID rule for `free_wifi` and a flag rule `hidden == 1` on "Free_WiFi_Zone" with hidden 1 give "Honeypot? \| Stealth AP" |
| Analyser.AnalyzeThreatTags | scout_hq/modules/analyser.py:44-93 | the rule loop's result is the classification: the fired labels joined with " \| " in rule order, or the default label |
| RoundTrip.SplitFileText | scout_agent/scout/logic.py:106 | a file of lines without breaks, each ended by a newline, reads back as those lines |
| RoundTrip.JoinNoBreak | scout_agent/scout/logic.py:106 | joining cells without breaks gives a line without breaks |
| RoundTrip.HeaderRow | scout_agent/scout/logic.py:89 | the written header reads back as the seven column names |
| RoundTrip.HeaderLookup | scout_hq/ingest.py:44-50 | under the written header each column name finds its own cell |
| RoundTrip.RecordRow | scout_agent/scout/logic.py:95-106 | a written record reads back as its seven cells, the SSID without its quotes |
| RoundTrip.RecordRoundTrip | scout_hq/ingest.py:42-51 | one written record converts back to the access point's id, SSID, BSSID, RSSI, channel, hidden flag and security |
| RoundTrip.SessionThenIngest | scout_agent/scout/logic.py:71-106 | a session saved to a new vault file and the file's contents decoded at the HQ give one observation per access point, in order, with the written values |
| RoundTrip.SsidSurvives | scout_agent/scout/logic.py:95 | an SSID that decodes without a double quote reaches the HQ exactly as decoded |
| RoundTrip.ReadLines | scout_hq/ingest.py:35-39 | a file of lines without breaks reads back as the header's cells, then one record per later line |
| RoundTrip.DataRowsOf | scout_hq/ingest.py:39 | when no line after the header is empty, every one of them is a record |
| RoundTrip.AcceptedRecords | scout_hq/ingest.py:39-55 | every written record is accepted, as the observation it was written from |
| RoundTrip.VaultLines | scout_hq/ingest.py:35-39 | a freshly written vault reads back as the header and one row per record |
| RoundTrip.VaultRoundTrip | scout_hq/ingest.py:31-55 | a vault written from scratch and ingested yields one observation per access point, in order, with the written values |
| RoundTrip.RowsAppend | scout_hq/ingest.py:39 | the records of two stretches of lines are those of each, in order |
| RoundTrip.SessionsClean | scout_agent/scout/logic.py:91-106 | the records of two sessions, one after the other, hold no line break and none is empty |
| RoundTrip.TwoSessionsRoundTrip | scout_hq/ingest.py:31-55 | a vault holding two sessions, the second appended without a header, is ingested as the first session's observations followed by the second's, each with its own locality id |
| RoundTrip.TwoSessionsThenIngest | scout_agent/scout/logic.py:78-106 | two sessions saved to a new vault file one after the other, then decoded at the HQ, give the first session's observations followed by the second's |

## Left out

- Printing, `gc.collect`, `time.sleep_ms`, WLAN power switching, `ensure_data_dir` and `delete_vault` are left out. They only print, manage memory, the radio or directories, and do not affect the data.
- UTF-8 decoding of SSID bytes with `'ignore'` is the parameter `decode`. Its result is taken as given, and `None` stands for the exception branch.
- Text.ParseInt: models Python's `int()` only on an optional `-` followed by ASCII digits. Surrounding whitespace, `+`, underscores and non-ASCII digits, which `int()` also accepts, are treated as malformed. The interpreter's default limit of 4300 digits, above which `int()` raises `ValueError`, is not modelled: such text is accepted.
- Text.Lower: only ASCII letters are case-mapped. Python's full Unicode `lower()` is left out.
- Text.Upper: only ASCII letters are case-mapped. Python's full Unicode `upper()` is left out.
- Csv.SplitLines: the text is split into lines before cells are read, so a quoted cell spanning lines is not modelled. The source's reader would keep an embedded `\n` and read `\r` and `\r\n` as `\n`. For the same reason, a quote left open ends the cell at the end of its line, where the source's reader would go on into the next line.
- RoundTrip.VaultRoundTrip, RoundTrip.RecordRoundTrip, RoundTrip.VaultLines, RoundTrip.SessionThenIngest, RoundTrip.SsidSurvives, RoundTrip.TwoSessionsRoundTrip, RoundTrip.TwoSessionsThenIngest: require SSIDs without line breaks. This follows from the line-splitting simplification above.
- The CSV reader's field size limit (131072 characters) is left out. In the source, a larger field aborts the read.
- Ingest.RunIngest: any failure while opening or reading the source is the single `Unreadable` case. Encoding errors are not located within the file.
- Vault.VaultFile.SaveToCsv: the swallowed write exception is left out. The model always writes.
- LocalityCounter.NvsCounter.GetNextId: NVS write and commit failures other than 32-bit overflow are not modelled.
- `datetime.now()` formatting is the parameter `now`.
- `get_connection`, `load_database` and the SQL schema text are left out. They are sqlite and pandas plumbing.
- Store.ObservationTable.SaveToDb: a storage error is taken to insert nothing. Whether a failed `executemany` rolls back is an assumption about the connection's transaction.
- The vendor table, security standards, tag rules and default label are values; reading the JSON configuration is left out. Rules without a label (the source would later fail in `join`) and non-string keywords or fields are not modelled.
- Float and NaN cells, and float rule values, are not modelled: `Value` has null, integer, text and boolean.
- The row given to `analyze_threat_tags` is a mapping from column names to values, as produced by the HQ's data frame.
- A standards entry that is not a mapping, or a label that is not text, is not modelled.
