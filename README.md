# UniProtKB retrieval client: FASTA parser, query URL builder, mapping retry loop

This project models the core of a small UniProtKB client, the part that pairs
evolutionary comparisons of proteins with data fetched from UniProt's REST
services. It covers three pieces:

- **The FASTA parser** `_parse_fasta` of `CompareProteinsEvolutionary`.
  - It splits the text on `\n`.
  - A line starting with `>` opens a record. The record's key is the second
    `|`-field of the line once every `>` is removed.
  - Every other line is stripped and appended to the current record.
  - A later header with the same key resets that record to empty.
  - A sequence line before any header fails, because `Id` is unbound.
  - A header without `|` fails, because the index `[1]` is out of range.
- **The query URL** of `UniProtKB_Query`.
  - `glueParameters` accumulates `key=value&` over the keyword arguments in
    order, replaces every space by `+` and drops the last character.
  - `generateURL` puts the base URL `https://www.uniprot.org/uniprot/?` in
    front of that.
- **The retry loop** of `UniProtKB_Mapping`.
  - It makes up to ten tries, each posting the same five-field form to
    `https://www.uniprot.org/uploadlists/`.
  - The first try that fetches a body returns it. When a non-empty file name
    is given, that try must also write the body to the file.
  - A failed try `i` sleeps `5 * i` seconds.
  - After ten failures the function falls off its end and returns `None`.

Modules:

- `Wrappers`: `Option` and `Result`.
- `PyText`: the Python string operations the code relies on, each with its
  Python edge cases.
  - `str.split` with one separator, and its inverse `Join`.
  - `str.strip` with exactly the characters for which `str.isspace` holds.
  - `str.replace` for a single character.
  - The slice `[:-1]`.
  - `str` of an integer.
- `Fasta`:
  - the parser as an imperative method (`ParseFasta`), proved equal to a fold
    of one step per line (`Run`, `Parse`);
  - independent declarative definitions (`WellFormed`, `HeaderKeys`,
    `LastHeaderFor`, `Body`), with lemmas proving that the fold agrees with
    them.
- `FastaRoundTrip`: collections of records (database, accession, name,
  sequence) written out as FASTA text, with each sequence wrapped at a fixed
  width. The lemmas prove that the parser reads such a text back to the
  collection.
- `Query`:
  - the accumulation loop of `glueParameters` as a method, proved equal to the
    fields joined by `&` with spaces turned into `+`;
  - the exact layout of the URL, with lemmas about it.
- `Mapping`: the retry loop as a method, proved against `FirstSuccess`, the
  index of the first successful try, and `Backoff`, the sequence of sleeps.
  - The network and the file system are not called. What they do on try `i`
    is the parameter `network[i]`.
  - The requests sent, the sleeps taken and the file written come back as
    out-parameters.

`UniProtKB_Mapping` is documented to return the downloaded text
(mapping.py:54-57). After the tenth failed try, though, it falls off its loop
and returns Python's `None`. `Mapping.UniProtKBMapping` does the same. That
`None` can still be told apart from an empty response `Some("")`.

## Model

| member | source | states |
|---|---|---|
| PyText.Split | CompareProteinsEvolutionary.py:105 | `str.split` with one separator: at least one piece; two or more exactly when the separator occurs; no piece contains the separator |
| PyText.JoinSplit | CompareProteinsEvolutionary.py:105 | Joining the pieces of a split with the separator gives back the original text |
| PyText.SplitJoin | CompareProteinsEvolutionary.py:108-109 | Splitting a join of pieces that do not contain the separator gives back exactly those pieces |
| PyText.SplitCons | CompareProteinsEvolutionary.py:108-109 | A piece without the separator, followed by the separator, splits off as exactly the first piece |
| PyText.SplitAppendSeparator | CompareProteinsEvolutionary.py:105 | A trailing separator adds exactly one empty piece at the end |
| PyText.RemoveAll | CompareProteinsEvolutionary.py:108 | `replace(">", "")`: the result holds every other character with its multiplicity and no `>`; text without `>` is unchanged; a one-character text becomes empty exactly when it is `>` |
| PyText.RemoveAllConcat | CompareProteinsEvolutionary.py:108 | Removing a character distributes over concatenation, so the kept characters stay in their order |
| PyText.StripSpec | CompareProteinsEvolutionary.py:112 | `strip()`: the result is a contiguous slice of the input with only `isspace` characters cut on both sides; it is empty or starts and ends with non-whitespace; it is empty exactly when the input is all whitespace |
| PyText.ReplaceChar | query.py:128 | `replace(" ", "+")`: same length; each occurrence of the old character becomes the new one, every other character is kept |
| PyText.ReplaceCharConcat | query.py:128 | The replacement distributes over concatenation |
| PyText.DropLast | query.py:128 | `[:-1]`: one character shorter and a prefix of the input; the empty string stays empty |
| PyText.NatToStringRoundTrip | query.py:126 | `str(n)` of a non-negative integer reads back as `n` |
| PyText.IntToString | query.py:126 | `str(i)`: for `i >= 0` canonical decimal digits (digits only, no leading zero unless it is `0`) that read back as `i`; for `i < 0` a `-` followed by the canonical digits of `-i` |
| PyText.CanonicalDigitsUnique | query.py:126 | Two canonical digit strings with the same value are the same string |
| PyText.IntToStringUnique | query.py:126 | Exactly one string meets the contract of `str(i)`, so the contract fixes the result |
| Fasta.HeaderKey | CompareProteinsEvolutionary.py:108-109 | The key exists exactly when the header contains `|`, and it never contains `|` |
| Fasta.Step | CompareProteinsEvolutionary.py:106-112 | One iteration succeeds exactly when a header has a `|` or a body line has a current record; afterwards a record is open and the current key is in the dictionary |
| Fasta.Run | CompareProteinsEvolutionary.py:105-112 | After a successful fold a record is open exactly when there was at least one line, and the current key is one of the dictionary's keys |
| Fasta.ParseFasta | CompareProteinsEvolutionary.py:104-113 | The loop over the lines, with `Id` and the dictionary updated in place, returns exactly `Parse` of the text, error cases included |
| Fasta.ParseSucceedsIff | CompareProteinsEvolutionary.py:105-112 | The parser succeeds exactly when the text is well formed: the first line is a header and every header has a `|` |
| Fasta.ParseErrors | CompareProteinsEvolutionary.py:107-112 | Unbound `Id` exactly when the first line is no header (the empty text included); an index failure at line `j` exactly when line `j` is the first header without `|` and everything before it is well formed |
| Fasta.ParseKeys | CompareProteinsEvolutionary.py:104-110 | The dictionary's keys are exactly the keys of the headers, so it has as many entries as there are distinct header keys |
| Fasta.ParseValues | CompareProteinsEvolutionary.py:110-112 | The last header with a given key wins: its value is the concatenation of the stripped lines after it up to the next header or the end |
| Fasta.BodyTrimmed | CompareProteinsEvolutionary.py:112 | A concatenation of stripped lines neither starts nor ends with whitespace |
| Fasta.LastWithKey | CompareProteinsEvolutionary.py:107-110 | Every header with a key has a last header with the same key at or after it |
| Fasta.ParseValuesTrimmed | CompareProteinsEvolutionary.py:112 | No value of the dictionary starts or ends with whitespace |
| Fasta.BlankLineAddsNothing | CompareProteinsEvolutionary.py:112 | A whitespace-only line among body lines changes no value |
| Fasta.TrailingNewlineIgnored | CompareProteinsEvolutionary.py:105-112 | A trailing newline (the empty last line it creates) changes neither the dictionary nor the error |
| Fasta.AccessionHeaderKey | CompareProteinsEvolutionary.py:107-109 | A header `>db\|accession` followed by nothing or by further `\|`-fields, where `db` and `accession` hold no `\|`, has the accession with every `>` removed as its key |
| Fasta.UniProtHeaderKey | CompareProteinsEvolutionary.py:107-109 | A UniProt header `>db\|accession\|name` (e.g. `>sp\|P0AFL3\|PPIA_ECOLI`) has the accession as its key |
| FastaRoundTrip.WrapConcat | CompareProteinsEvolutionary.py:111-112 | Cutting a sequence into lines of a fixed width loses and adds nothing: the lines run together give back the sequence |
| FastaRoundTrip.RoundTrip | CompareProteinsEvolutionary.py:104-113 | The FASTA text of a non-empty collection of plain records, wrapped at any width, with or without a final newline, parses to the accession-to-sequence map, a later record with the same accession replacing an earlier one |
| FastaRoundTrip.CollectionKeys | CompareProteinsEvolutionary.py:107-110 | The collection's keys are exactly the records' accessions |
| FastaRoundTrip.CollectionValues | CompareProteinsEvolutionary.py:110-112 | With distinct accessions, each accession is bound to its own record's sequence |
| FastaRoundTrip.RoundTripRecords | CompareProteinsEvolutionary.py:104-113 | With distinct accessions, the parsed dictionary has exactly the accessions as keys, each bound to its record's sequence |
| FastaRoundTrip.EmptyCollectionFails | CompareProteinsEvolutionary.py:104-107 | The empty collection does not round-trip: its text is one empty line, which is read before any header and fails with the unbound `Id` |
| Query.AccumulatedIsJoinPlusSeparator | query.py:124-126 | The accumulation loop builds the `key=value` fields joined by `&`, plus one trailing `&` |
| Query.GlueParameters | query.py:123-128 | `glueParameters`: the loop over the parameters in order, the replace and the `[:-1]` give the fields joined by `&` with spaces turned into `+` (empty for no parameters) |
| Query.GenerateUrl | query.py:111-140 | `generateURL`: the base URL unchanged, then the seven parameters glued in the order query, format, columns, include, compress, limit, offset |
| Query.QueryUrl | query.py:142-151 | The URL `UniProtKB_Query` downloads is `https://www.uniprot.org/uniprot/?` followed by the glued parameters of the request |
| Query.Plus | query.py:128 | Turning spaces into `+`: same length, no space left, and at each position a space becomes `+` while every other character is kept |
| Query.PlusKeepsAmpersands | query.py:128 | Turning spaces into `+` neither creates nor removes an `&` |
| Query.PlusJoin | query.py:128 | Replacing spaces in a join is replacing them in each piece, since the separator is no space |
| Query.GluedLayout | query.py:123-139 | The glued parameters are exactly `query=Q&format=F&columns=C&include=I&compress=Z&limit=L&offset=O`, with spaces in the values turned into `+` and the integers in decimal |
| Query.GluedSplitsIntoFields | query.py:123-139 | When no string value contains `&`, the glued parameters split on `&` into exactly those seven fields in that order |
| Query.DefaultQueryUrl | query.py:54-63 | With every argument but the query at its default, the part after the base URL is `query=Q&format=list&columns=&include=no&compress=no&limit=0&offset=0`, where `Q` is the query with spaces turned into `+` |
| Mapping.FormParams | mapping.py:67-73 | The posted form has exactly the keys query, from, to, format and columns, each bound to its argument |
| Mapping.FirstSuccess | mapping.py:64-84 | The index of the first successful try: every earlier try failed, and it succeeded unless no try did |
| Mapping.Backoff | mapping.py:84-90 | The sleep after failed try `i` is `5 * i` seconds, one sleep per failed try |
| Mapping.BackoffTotal | mapping.py:84-90 | After `n` failed tries the client has slept `5 * n * (n - 1) / 2` seconds in all |
| Mapping.ExhaustedWaitTotal | mapping.py:64-90 | When all ten tries fail the client sleeps 225 seconds in all, the last sleep being 45 seconds |
| Mapping.UniProtKBMapping | mapping.py:64-90 | A body comes back exactly when one of the ten tries succeeds. With `k` the first successful try: `k + 1` identical requests (ten when none succeeds); the sleeps `0, 5, …, 5(k-1)`; the body of try `k` or `None`; the file written with that body only when a non-empty file name is given |

## Left out

- The network: `urlopen`, `requests.get`, form encoding (`urlencode`), UTF-8 encoding and decoding. What a try fetches is a parameter of `Mapping.UniProtKBMapping`.
- `downloadFile` (query.py:12-51): deleting an existing file and writing the download in chunks is I/O. `Query.QueryUrl` stops at the URL that would be downloaded.
- `time.sleep` and the progress `print`: sleeps are returned as durations, and the message is not modelled.
- Mapping.UniProtKBMapping: it records only writes that went through. A write that raises after `open(fileName, "w")` may leave a truncated file behind, and the model does not capture that.
- Mapping.UniProtKBMapping: the bare `except:` catches every exception, and any of them counts as a failed try. The model does not name which exception it was.
- Mapping.FormParams: Python's dict preserves insertion order, but the order only matters to `urlencode`, so the form is a `map`.
- Query.GenerateUrl: values of any other Python type passed to `str()` are not modelled. The five text arguments are strings and `limit`/`offset` are integers, as `UniProtKB_Query` passes them.
- Query.GenerateUrl: `generateURL`'s own defaults `limit="0"` and `offset="0"` are never used, because `UniProtKB_Query` always passes both. `str` gives `"0"` for either form.
- The other methods of `CompareProteinsEvolutionary` (`_retrieve_*`, the constructor, the comparison itself) and the driver scripts are not part of this model. They only sequence calls to the pieces modelled here.
- Strings are sequences of Unicode characters. Byte-level decoding of the response is not modelled.
