# GDM discovery in Dafny

A model of the `GDM` class of netdisco (`netdisco/gdm.py`). The class discovers
Plex media servers with Plex's "Good Day Mate" multicast protocol. A scan
multicasts a search message and then collects replies until the receive times
out. A reply is kept when the first line of its text contains `200 OK`. It then
becomes an entry `{'data': headers, 'from': sender}`. The headers come from
every line of the reply that holds a colon. The accessors `all`,
`find_by_content_type` and `find_by_data` each run a fresh scan and then read
or filter the entries.

The network is taken out. A scan is given the finite sequence of datagrams that
`recvfrom` returned before the timeout, in arrival order. Each datagram is a
`Reply(payload, server)` with the payload as bytes.

Files:

- `wrappers.dfy`: `Option` and `Result`.
- `pystr.dfy` (module `PyStr`): the Python built-ins the parser relies on:
  - `bytes.decode('ascii')`;
  - `str.splitlines` with Python's full set of line boundaries;
  - `str.strip` with Python's whitespace set;
  - `str.split` on one character;
  - the substring test `in`.
- `gdm_reply.dfy` (module `GdmReply`): parsing one reply into a header map, or
  into the exception the parse raises.
- `gdm_scan.dfy` (module `GdmScan`): `Collect`, the receive loop as a
  function of the replies' parse outcomes (`Outcomes` parses each datagram
  and pairs the result with its sender). Also an independent reference
  definition of what a scan keeps, and the lemmas relating the two.
- `gdm_filters.dfy` (module `GdmFilters`): the comprehensions behind
  `find_by_content_type` and `find_by_data`.
- `gdm.dfy` (module `Gdm`): `class GDM`, whose field `entries` is rebuilt in
  place by `Update`, with a `while` loop proved against `Collect`.
- `gdm_format.dfy` (module `GdmFormat`): the text a server sends, built from a
  status line and headers. Parsing it gives the headers back. Two concrete
  replies are worked through: a `200 OK` and a `404 Not Found`.

Exceptions are values. The model has no exception system, so a reply's parse
returns `Result<Option<map>, Error>`:

- `Failure(e)`: the parse raises `e`;
- `Success(None)`: the reply is dropped;
- `Success(Some(m))`: the reply is appended with headers `m`.

`Update` returns the exception that ended the scan, if any. `entries` then
holds what was appended before it, as in the source: only `socket.timeout` is
caught, so any other exception leaves `update` with `self.entries` partly
rebuilt.

Where the code and its documentation differ, the model follows the code:

- `line.split(':')` splits on every colon. Unpacking into `(k, v)` raises
  `ValueError` unless the line has exactly one colon, so a value such as
  `http://host` aborts the scan. It does not keep everything after the first
  colon.
- The key is not stripped; only the value is.
- The comprehension runs over every line of the reply, the status line
  included. A status line with a colon is read as a header too, or raises.
- A non-ASCII reply raises `UnicodeDecodeError`, and an empty one `IndexError`
  (`splitlines()[0]`). Both abort the whole scan; the reply is not simply
  skipped.
- `find_by_content_type` raises `KeyError` when any entry lacks
  `Content_Type`. Such entries are not just excluded.
- `find_by_data` as written returns every entry. `GdmFilters.FindByDataAsWritten`
  models that comprehension. `Gdm.GDM.FindByData` deliberately uses the search
  the docstring describes instead (see Findings).

## Model

| member | source | states |
|---|---|---|
| PyStr.DecodeAscii | netdisco/gdm.py:77 | Decoding succeeds iff every byte is below 128, and then each character is its byte. Otherwise the error is the position of the first byte above 127. |
| PyStr.DecodeEncode | netdisco/gdm.py:77 | Decoding the ASCII encoding of an ASCII text gives the text back. |
| PyStr.SplitLines | netdisco/gdm.py:78 | The list of lines is empty iff the text is empty. The first line is the text up to the first line boundary. No line holds a boundary. |
| PyStr.SplitJoinLines | netdisco/gdm.py:78 | Splitting lines each ended by a terminator (`\r\n` or any single boundary) gives exactly those lines back, with no trailing empty line. |
| PyStr.SplitJoinEach | netdisco/gdm.py:78 | Lines ended by any mix of terminators, the last possibly unterminated, split back into exactly those lines, as long as no lone `\r` meets an empty `\n`-ended line (which would read as one `\r\n`). |
| PyStr.Strip | netdisco/gdm.py:79 | The result is a slice of the input with only whitespace removed on either side. A non-empty result starts and ends with non-whitespace. |
| PyStr.IndexOf | netdisco/gdm.py:80 | The index of the first occurrence of the character, or the length when it is absent. |
| PyStr.Split | netdisco/gdm.py:80 | Splitting on a character gives one more part than it has occurrences, and no part holds it. |
| PyStr.JoinSplit | netdisco/gdm.py:80 | Joining the parts of a split with the separator restores the string. |
| PyStr.SplitJoin | netdisco/gdm.py:80 | Splitting parts that did not hold the separator, once joined, gives the parts back. |
| PyStr.SplitOnce | netdisco/gdm.py:80 | A line with exactly one colon splits into the text before it and the text after it. |
| PyStr.Contains | netdisco/gdm.py:78 | `sub in s` is true iff `sub` occurs at some position of `s`. |
| GdmReply.HeaderPair | netdisco/gdm.py:79-81 | A line with a colon unpacks iff it has exactly one colon. The pair is the unstripped key before the colon and the stripped value after it. Otherwise it raises ValueError with the count of parts. |
| GdmReply.Headers | netdisco/gdm.py:79-81 | The comprehension itself, with no contract of its own: `HeadersFailure`, `HeadersKeys`, `HeadersLastWins` and `DescribesUnique` state when it raises and which map it builds. |
| GdmReply.HeadersFailure | netdisco/gdm.py:79-81 | The comprehension raises iff some colon line has two or more colons. The error is that of the first such line. |
| GdmReply.HeadersKeys | netdisco/gdm.py:79-81 | A key is in the map iff some colon line has exactly that text before its colon. |
| GdmReply.HeadersLastWinsAt | netdisco/gdm.py:79-81 | A key's value comes from the last line with that key, stripped. |
| GdmReply.HeadersLastWins | netdisco/gdm.py:79-81 | The last line of every key gives that key's value. |
| GdmReply.DescribesUnique | netdisco/gdm.py:79-81 | Those two properties fix the map: two maps whose keys are the colon lines' keys, each with the stripped value of its last line, are equal. |
| GdmReply.ParseReply | netdisco/gdm.py:77-83 | The parse of one datagram, with no contract of its own: `ParseReplyDecodeError`, `ParseReplyIndexError`, `ParseReplyValueError`, `NoStatusDropped` and `ParseReplyAccepted` say when each outcome happens. |
| GdmReply.NoStatusDropped | netdisco/gdm.py:78 | A reply whose first line lacks `200 OK` is dropped without error, whatever its other lines hold. |
| GdmReply.ParseReplyIndexError | netdisco/gdm.py:78 | The parse raises IndexError iff the datagram is empty. |
| GdmReply.ParseReplyDecodeError | netdisco/gdm.py:77 | The parse raises UnicodeDecodeError iff some byte is 128 or above. |
| GdmReply.ParseReplyValueError | netdisco/gdm.py:78-81 | The parse raises ValueError iff the first line holds `200 OK` and some line has two or more colons. |
| GdmReply.ParseReplyAccepted | netdisco/gdm.py:77-83 | A reply is appended with headers m iff it is ASCII and non-empty, its first line holds `200 OK`, no line has two or more colons, and m has exactly the keys of its colon lines (the status line included), each with the stripped value of the last line that has it. |
| GdmScan.Collect | netdisco/gdm.py:74-85 | The loop as a function of the parse outcomes, with no contract of its own: `CollectMeaning`, `CollectProvenance` and `CollectStopsAtFailure` state what it keeps and when it stops. |
| GdmScan.FirstFailure | netdisco/gdm.py:74-85 | The exception-raising reply that ends the loop is the first one; no earlier reply raises. |
| GdmScan.AcceptedEntries | netdisco/gdm.py:76-83 | The reference definition of what a scan keeps, with no contract of its own: `ReplyContribution`, `AcceptedEntriesCount` and `AcceptedEntriesProvenance` state what it holds. |
| GdmScan.AcceptedEntriesConcat | netdisco/gdm.py:74-83 | The entries kept from two batches in a row are those of the first, then those of the second. |
| GdmScan.ReplyContribution | netdisco/gdm.py:76-83 | A single reply anywhere in a batch adds, at its place in arrival order, exactly one entry with its headers and sender if it is accepted, and nothing otherwise. |
| GdmScan.AcceptedEntriesCount | netdisco/gdm.py:76-83 | As many entries are kept as there are accepted replies. |
| GdmScan.AcceptedEntriesProvenance | netdisco/gdm.py:82-83 | Every kept entry has the headers and the sender of some reply of the batch. |
| GdmScan.FirstFailureOfPrefix | netdisco/gdm.py:74-85 | The first raising reply of a prefix is the batch's first one, if that lies within the prefix. |
| GdmScan.CollectMeaning | netdisco/gdm.py:58-85 | A scan's entries are the accepted replies' entries up to the first raising reply. Its outcome is that reply's error, or none. |
| GdmScan.CollectWithoutFailure | netdisco/gdm.py:58-85 | With no raising reply, the scan keeps exactly one entry per accepted reply, in order, and reports no error. |
| GdmScan.CollectProvenance | netdisco/gdm.py:58-83 | Every entry after a scan comes from a reply of that scan; nothing survives from earlier scans. |
| GdmScan.CollectStopsAtFailure | netdisco/gdm.py:84-87 | Once a reply raises, later replies change neither the entries nor the error. |
| GdmFilters.ByContentType | netdisco/gdm.py:40-41 | The comprehension of find_by_content_type, with no contract of its own: `ByContentTypeFailure` and `ByContentTypeKeeps` state when it raises and what it returns. |
| GdmFilters.ByContentTypeFailure | netdisco/gdm.py:40-41 | The comprehension raises KeyError iff some entry lacks `Content_Type`, and raises nothing else. |
| GdmFilters.ByContentTypeKeeps | netdisco/gdm.py:40-41 | When it does not raise, it returns, in order and with their repetitions, exactly the entries whose `Content_Type` contains the value as a substring. |
| GdmFilters.FindByDataAsWritten | netdisco/gdm.py:48-49 | The comprehension of find_by_data as written, keeping an entry when its condition, a generator object, is true; `FindByDataKeepsAll` states what that returns. |
| GdmFilters.FindByDataKeepsAll | netdisco/gdm.py:48-49 | Because a generator object is always true, the comprehension as written returns every entry, unchanged and in order, whatever the search values. |
| GdmFilters.FindByDataIntended | netdisco/gdm.py:43-46 | The intended search returns, in order and with their repetitions, exactly the entries holding every (key, value) of the search among their headers. |
| GdmFilters.FindByDataDoesNotFilter | netdisco/gdm.py:48-49 | An entry whose Content_Type is audio survives a search for video as written, but not in the intended search. |
| Gdm.GDM.constructor | netdisco/gdm.py:17-18 | A new object has no entries. |
| Gdm.GDM.Update | netdisco/gdm.py:51-87 | entries is rebuilt from scratch: it becomes the scan of this batch (`Collect`) and the method returns the scan's exception. Without an exception, entries is one entry per accepted reply, in arrival order. |
| Gdm.GDM.Scan | netdisco/gdm.py:22-25 | A scan is an update. |
| Gdm.GDM.All | netdisco/gdm.py:27-33 | After a fresh scan, the result is the scan's exception or a list equal, element for element, to entries. |
| Gdm.GDM.FindByContentType | netdisco/gdm.py:35-41 | After a fresh scan, the result is the scan's exception, or the content-type filter over the new entries. A returned list holds each matching entry as often as entries does, and no other. |
| Gdm.GDM.FindByData | netdisco/gdm.py:43-49 | After a fresh scan, the result is the scan's exception, or the corrected search over the new entries, a subsequence of them. |
| GdmFormat.HeaderLineParsed | netdisco/gdm.py:79-81 | A line `key: value` with no colon or line boundary in its parts, and a value without surrounding whitespace, unpacks into exactly that key and value. |
| GdmFormat.HeadersOfFormatted | netdisco/gdm.py:79-81 | Over a status line without a colon followed by such header lines, the comprehension gives the headers, the last value winning for a repeated key. |
| GdmFormat.FormattedLines | netdisco/gdm.py:77-78 | A reply text built from such lines is ASCII and splits back into exactly its lines. |
| GdmFormat.ParseFormatted | netdisco/gdm.py:77-81 | Round trip: a reply built from a status line holding `200 OK` and well-formed headers is appended with exactly those headers. |
| GdmFormat.BedroomText | netdisco/gdm.py:77-78 | The reply built from `HTTP/1.0 200 OK`, `Name: Bedroom` and `Content_Type: video` is those three lines, each ended by CRLF. |
| GdmFormat.SingleReply | netdisco/gdm.py:74-85 | A scan of one datagram raises that datagram's parse error, keeps nothing for a dropped reply, and keeps one entry with its headers and sender for an accepted one. |
| GdmFormat.BedroomReply | netdisco/gdm.py:58-83 | That reply alone gives a scan with one entry, `{Name: Bedroom, Content_Type: video}` from its sender, and no error. |
| GdmFormat.NoTwoNoStatus | netdisco/gdm.py:78 | A line without the digit 2 does not contain `200 OK`. |
| GdmFormat.NotFoundReply | netdisco/gdm.py:58-78 | A `HTTP/1.0 404 Not Found` reply alone gives a scan with no entry and no error, whatever well-formed headers follow. |

## Left out

- Sockets are not modelled: creating one, `settimeout`, the `IP_MULTICAST_TTL` option, `sendto`, `recvfrom`, closing it, and ending the loop on `socket.timeout` (netdisco/gdm.py:61-76, 84-87). This is network I/O. The model takes the finite sequence of datagrams received before the timeout as a parameter.
- The 1024-byte buffer of `recvfrom` (netdisco/gdm.py:76) is not modelled. A reply's payload is taken to be what `recvfrom` returned, so a longer, truncated datagram is seen already cut.
- The search message, the multicast address, the port and the timeout (netdisco/gdm.py:53-56) are left out. Only the socket layer uses them.
- The `threading.RLock` taken by `scan` (netdisco/gdm.py:20, 24-25) is left out. It serves only concurrency, so `Scan` is a plain call to `Update`.
- `last_scan` (netdisco/gdm.py:19) is left out: it is set once and never read.
- The `__main__` demonstration with `pprint` (netdisco/gdm.py:90-98) is left out: it is output only.
- Python dicts keep insertion order; the model's `map` does not. Entry data is compared as a mapping from key to value.
- `all` returns a copy of the list. The model's `seq` is a value, so aliasing between the copy and `entries` does not arise.
- An entry is a datatype with fields `data` and `from`, not a dict, so the lookup `entry['data']` cannot fail. In the source it cannot fail either, because every entry is built with both keys.
- Gdm.GDM.FindByData: does not return every entry as `find_by_data` does (netdisco/gdm.py:48-49); it returns the corrected search of the Findings row, and the code's behaviour is kept in `GdmFilters.FindByDataAsWritten`.
- UnicodeDecodeError is reduced to the position of the first bad byte, and ValueError to the number of parts. The message strings are not modelled.

## Findings

| source | as written | input that shows it | evidently intended | confidence | as-written member | corrected member |
|---|---|---|---|---|---|---|
| netdisco/gdm.py:48-49 | The condition `(item in values.items() for item in entry['data'].items())` is a generator object, which is always true, so every entry is returned. | Entries `[{'data': {'Content_Type': 'audio'}, 'from': s}]` with `values = {'Content_Type': 'video'}`: the audio entry is returned. | The docstring says "entries that match the search parameters": keep an entry only when it holds every (key, value) of the search. | not executed | GdmFilters.FindByDataKeepsAll | GdmFilters.FindByDataIntended |

`GdmFilters.FindByDataAsWritten` is the comprehension as written: a filter
whose condition is the generator object (`DataCondition`), kept when Python's
truth test (`Truthy`) says so. `GdmFilters.FindByDataDoesNotFilter` works
through the input above.
`Gdm.GDM.FindByData` uses the corrected search.

The intended test reads the search as "every search pair is among the entry's
headers". The generator compares pairs the other way round, each header pair
against the search values. Read literally with `all(...)`, that would keep
entries whose headers are all among the search values. The docstring's wording
supports the first reading, and the model uses it.
