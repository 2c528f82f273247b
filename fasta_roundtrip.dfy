/**
 * A FASTA text written out from a collection of records (one
 * `>db|accession|name` header per record, the sequence wrapped at any width)
 * and the proof that `_parse_fasta` reads the collection back.
 */
module FastaRoundTrip {
  import opened Wrappers
  import opened PyText
  import opened Fasta

  /** One entry of a collection: the three header fields and the sequence. */
  datatype Record = Record(db: string, accession: string, name: string, sequence: string)

  /** A sequence: no whitespace, which `strip()` would cut (the newline among it), and no `>`. */
  predicate PlainSequence(s: string) {
    forall k :: 0 <= k < |s| ==> !IsSpace(s[k]) && s[k] != '>'
  }

  /**
   * A record that can be written out: no field holds a newline, the first two
   * fields hold no `|`, the accession holds no `>` (which the parser removes),
   * and the sequence is plain. The name may hold `|` and `>`.
   */
  predicate PlainRecord(r: Record) {
    && '\n' !in r.db && '|' !in r.db
    && '\n' !in r.accession && '|' !in r.accession && '>' !in r.accession
    && '\n' !in r.name
    && PlainSequence(r.sequence)
  }

  /** `s` cut into lines of `width` characters, the last one possibly shorter. */
  function Wrap(s: string, width: nat): (lines: seq<string>)
    requires width > 0
    ensures forall k :: 0 <= k < |lines| ==> 0 < |lines[k]| <= width
    decreases |s|
  {
    if s == [] then []
    else if |s| <= width then [s]
    else [s[..width]] + Wrap(s[width..], width)
  }

  /** The lines run together. */
  function Concat(lines: seq<string>): string
    decreases |lines|
  {
    if lines == [] then "" else Concat(lines[..|lines| - 1]) + lines[|lines| - 1]
  }

  /** Running together a line and more lines. */
  lemma {:induction false} ConcatPrepend(x: string, lines: seq<string>)
    ensures Concat([x] + lines) == x + Concat(lines)
    decreases |lines|
  {
    if lines == [] {
      assert [x] + lines == [x];
      assert ([x])[..0] == [];
    } else {
      var n, all := |lines| - 1, [x] + lines;
      ConcatPrepend(x, lines[..n]);
      assert all[..n + 1] == [x] + lines[..n];
      assert all[n + 1] == lines[n];
      ConcatAssoc(x, Concat(lines[..n]), lines[n]);
    }
  }

  /** Wrapping loses and adds nothing: the lines run together give back the sequence. */
  lemma {:induction false} WrapConcat(s: string, width: nat)
    requires width > 0
    ensures Concat(Wrap(s, width)) == s
    decreases |s|
  {
    if s != [] && |s| > width {
      WrapConcat(s[width..], width);
      ConcatPrepend(s[..width], Wrap(s[width..], width));
      assert s == s[..width] + s[width..];
    } else if s != [] {
      assert [s][..0] == [];
    }
  }

  /** Every line of a wrapped plain sequence is plain. */
  lemma {:induction false} WrapPlain(s: string, width: nat)
    requires width > 0 && PlainSequence(s)
    ensures forall k :: 0 <= k < |Wrap(s, width)| ==> PlainSequence(Wrap(s, width)[k])
    decreases |s|
  {
    if s != [] && |s| > width {
      var head, tail := s[..width], s[width..];
      assert forall k :: 0 <= k < |tail| ==> tail[k] == s[width + k];
      assert forall k :: 0 <= k < |head| ==> head[k] == s[k];
      WrapPlain(tail, width);
      var lines := Wrap(s, width);
      assert forall k :: 1 <= k < |lines| ==> lines[k] == Wrap(tail, width)[k - 1];
    }
  }

  /** A plain line is no header, holds no newline and is kept whole by `strip()`. */
  lemma PlainLine(x: string)
    requires PlainSequence(x)
    ensures !IsHeader(x) && '\n' !in x && Strip(x) == x
  {
    StripSpec(x);
    if x != [] {
      assert !IsSpace(x[0]) && !IsSpace(x[|x| - 1]);
    }
    assert x == x[0..|x|];
  }

  /** The header line of a record. */
  function HeaderOf(r: Record): string {
    ">" + HeaderText(r.db, r.accession, r.name)
  }

  /** A record written out: its header, then its sequence wrapped at `width`. */
  function RecordLines(r: Record, width: nat): seq<string>
    requires width > 0
  {
    [HeaderOf(r)] + Wrap(r.sequence, width)
  }

  /** The records written out one after the other. */
  function FastaLines(records: seq<Record>, width: nat): (lines: seq<string>)
    requires width > 0
    ensures records != [] ==> lines != []
    decreases |records|
  {
    if records == [] then []
    else
      var n := |records| - 1;
      FastaLines(records[..n], width) + RecordLines(records[n], width)
  }

  /** The FASTA text of a collection: its lines joined by newlines. */
  function FastaText(records: seq<Record>, width: nat): string
    requires width > 0
  {
    if records == [] then "" else Join(FastaLines(records, width), '\n')
  }

  /** The collection the records describe: accession to sequence, a later record replacing an earlier one. */
  function Collection(records: seq<Record>): map<string, string>
    decreases |records|
  {
    if records == [] then map[]
    else
      var n := |records| - 1;
      Collection(records[..n])[records[n].accession := records[n].sequence]
  }

  /** The accessions of the records. */
  function Accessions(records: seq<Record>): set<string> {
    set i | 0 <= i < |records| :: records[i].accession
  }

  /** The accessions of one more record. */
  lemma AccessionsAppend(records: seq<Record>)
    requires records != []
    ensures var n := |records| - 1;
      Accessions(records) == Accessions(records[..n]) + {records[n].accession}
  {
    var n := |records| - 1;
    var front := records[..n];
    forall k | k in Accessions(records) ensures k in Accessions(front) + {records[n].accession} {
      var i :| 0 <= i < |records| && records[i].accession == k;
      if i < n { assert front[i].accession == k; }
    }
    forall k | k in Accessions(front) ensures k in Accessions(records) {
      var i :| 0 <= i < n && front[i].accession == k;
      assert records[i].accession == k;
    }
  }

  /** The collection holds exactly the accessions of the records. */
  lemma {:induction false} CollectionKeys(records: seq<Record>)
    ensures Collection(records).Keys == Accessions(records)
    decreases |records|
  {
    if records != [] {
      CollectionKeys(records[..|records| - 1]);
      AccessionsAppend(records);
    }
  }

  /** No two records share an accession. */
  predicate DistinctAccessions(records: seq<Record>) {
    forall i, j :: 0 <= i < j < |records| ==> records[i].accession != records[j].accession
  }

  /** With distinct accessions, the collection maps each record's accession to its sequence. */
  lemma {:induction false} CollectionValues(records: seq<Record>)
    requires DistinctAccessions(records)
    ensures forall i :: 0 <= i < |records| ==> records[i].accession in Collection(records)
    ensures forall i :: 0 <= i < |records| ==> Collection(records)[records[i].accession] == records[i].sequence
    decreases |records|
  {
    if records != [] {
      var n := |records| - 1;
      var front := records[..n];
      assert forall i :: 0 <= i < n ==> front[i] == records[i];
      assert DistinctAccessions(front);
      CollectionValues(front);
    }
  }

  /** All records can be written out. */
  predicate AllPlain(records: seq<Record>) {
    forall i :: 0 <= i < |records| ==> PlainRecord(records[i])
  }

  /** Leaving records off the end keeps them writable. */
  lemma AllPlainPrefix(records: seq<Record>, n: nat)
    requires AllPlain(records) && n <= |records|
    ensures AllPlain(records[..n])
  {
    assert forall i :: 0 <= i < n ==> records[..n][i] == records[i];
  }

  /** A header line makes its accession current and resets its entry. */
  lemma RunHeader(p: seq<string>, r: Record, st: State)
    requires Run(p) == Ok(st) && PlainRecord(r)
    ensures Run(p + [HeaderOf(r)]) == Ok(State(Some(r.accession), st.entries[r.accession := ""]))
  {
    var h := HeaderOf(r);
    var lines := p + [h];
    UniProtHeaderKey(r.db, r.accession, r.name);
    assert h[0] == '>';
    assert lines[..|p|] == p;
    assert lines[|p|] == h;
  }

  /** A plain line appends itself to the current entry. */
  lemma RunPlainLine(p: seq<string>, x: string, key: string, m: map<string, string>)
    requires Run(p) == Ok(State(Some(key), m)) && PlainSequence(x)
    ensures key in m
    ensures Run(p + [x]) == Ok(State(Some(key), m[key := m[key] + x]))
  {
    PlainLine(x);
    var lines := p + [x];
    assert lines[..|p|] == p;
    assert lines[|p|] == x;
  }

  /** Extending an entry twice is extending it once by both pieces. */
  lemma ExtendTwice(m: map<string, string>, key: string, v: string, a: string, b: string)
    ensures m[key := v + a][key := (v + a) + b] == m[key := v + (a + b)]
  {
    assert (v + a) + b == v + (a + b);
  }

  /** An entry extended by nothing is unchanged. */
  lemma ExtendByNothing(m: map<string, string>, key: string)
    requires key in m
    ensures m[key := m[key] + Concat([])] == m
  {
    assert m[key] + Concat([]) == m[key];
  }

  /** Running together one more line. */
  lemma ConcatAppend(lines: seq<string>, x: string)
    ensures Concat(lines + [x]) == Concat(lines) + x
  {
    assert (lines + [x])[..|lines|] == lines;
  }

  /** Plain lines append their concatenation to the current entry. */
  lemma {:induction false} RunPlainLines(p: seq<string>, body: seq<string>, key: string, m: map<string, string>)
    requires Run(p) == Ok(State(Some(key), m))
    requires forall k :: 0 <= k < |body| ==> PlainSequence(body[k])
    ensures key in m
    ensures Run(p + body) == Ok(State(Some(key), m[key := m[key] + Concat(body)]))
    decreases |body|
  {
    if body == [] {
      assert p + body == p;
      ExtendByNothing(m, key);
    } else {
      var n := |body| - 1;
      var front, x := body[..n], body[n];
      assert body == front + [x];
      RunPlainLines(p, front, key, m);
      var q := p + front;
      RunPlainLine(q, x, key, m[key := m[key] + Concat(front)]);
      assert p + body == q + [x];
      ConcatAppend(front, x);
      ExtendTwice(m, key, m[key], Concat(front), x);
    }
  }

  /** An entry reset to empty and then extended holds just the extension. */
  lemma ResetThenExtend(e: map<string, string>, key: string, v: string)
    ensures var m := e[key := ""]; m[key := m[key] + v] == e[key := v]
  {
    assert "" + v == v;
  }

  /** A record's lines are its header line followed by its wrapped sequence. */
  lemma RecordLinesAfter(p: seq<string>, r: Record, width: nat)
    requires width > 0
    ensures p + RecordLines(r, width) == (p + [HeaderOf(r)]) + Wrap(r.sequence, width)
  {
  }

  /** After a record's header and its plain lines the entry holds their concatenation. */
  lemma RunHeaderAndBody(p: seq<string>, r: Record, width: nat, st: State)
    requires width > 0 && Run(p) == Ok(st) && PlainRecord(r)
    ensures var m := st.entries[r.accession := ""];
      Run((p + [HeaderOf(r)]) + Wrap(r.sequence, width))
        == Ok(State(Some(r.accession), m[r.accession := m[r.accession] + Concat(Wrap(r.sequence, width))]))
  {
    RunHeader(p, r, st);
    WrapPlain(r.sequence, width);
    RunPlainLines(p + [HeaderOf(r)], Wrap(r.sequence, width), r.accession, st.entries[r.accession := ""]);
  }

  /** A record's lines bind its accession to its sequence and leave the rest of the dictionary alone. */
  lemma RunRecord(p: seq<string>, r: Record, width: nat, st: State)
    requires width > 0 && Run(p) == Ok(st) && PlainRecord(r)
    ensures Run(p + RecordLines(r, width)) == Ok(State(Some(r.accession), st.entries[r.accession := r.sequence]))
  {
    RunHeaderAndBody(p, r, width, st);
    RecordLinesAfter(p, r, width);
    WrapConcat(r.sequence, width);
    ResetThenExtend(st.entries, r.accession, r.sequence);
  }

  /** The written-out records parse, line by line, into their collection. */
  lemma {:induction false} RunFasta(records: seq<Record>, width: nat)
    requires width > 0 && AllPlain(records)
    ensures Run(FastaLines(records, width)).Ok?
    ensures Run(FastaLines(records, width)).value.entries == Collection(records)
    decreases |records|
  {
    if records != [] {
      var n := |records| - 1;
      var front := records[..n];
      AllPlainPrefix(records, n);
      RunFasta(front, width);
      RunRecord(FastaLines(front, width), records[n], width, Run(FastaLines(front, width)).value);
    }
  }

  /** No written-out line holds a newline. */
  lemma {:induction false} FastaLinesHaveNoNewline(records: seq<Record>, width: nat)
    requires width > 0 && AllPlain(records)
    ensures forall k :: 0 <= k < |FastaLines(records, width)| ==> '\n' !in FastaLines(records, width)[k]
    decreases |records|
  {
    if records != [] {
      var n := |records| - 1;
      var front, r := records[..n], records[n];
      assert forall i :: 0 <= i < n ==> front[i] == records[i];
      FastaLinesHaveNoNewline(front, width);
      var body := Wrap(r.sequence, width);
      WrapPlain(r.sequence, width);
      forall k | 0 <= k < |body| ensures '\n' !in body[k] {
        PlainLine(body[k]);
      }
      var before := FastaLines(front, width);
      var lines := FastaLines(records, width);
      assert lines == before + [HeaderOf(r)] + body;
      forall k | 0 <= k < |lines| ensures '\n' !in lines[k] {
        if k < |before| {
          assert lines[k] == before[k];
        } else if k == |before| {
          assert lines[k] == HeaderOf(r);
        } else {
          assert lines[k] == body[k - |before| - 1];
        }
      }
    }
  }

  /**
   * The round trip: the FASTA text of a non-empty collection of plain records,
   * wrapped at any width, with or without a final newline, parses back to the
   * collection.
   */
  lemma RoundTrip(records: seq<Record>, width: nat)
    requires width > 0 && records != [] && AllPlain(records)
    ensures Parse(FastaText(records, width)) == Ok(Collection(records))
    ensures Parse(FastaText(records, width) + "\n") == Ok(Collection(records))
  {
    var lines := FastaLines(records, width);
    FastaLinesHaveNoNewline(records, width);
    SplitJoin(lines, '\n');
    RunFasta(records, width);
    TrailingNewlineIgnored(FastaText(records, width));
  }

  /**
   * With distinct accessions, the parsed dictionary has exactly the records'
   * accessions as keys, each bound to its record's sequence.
   */
  lemma RoundTripRecords(records: seq<Record>, width: nat)
    requires width > 0 && records != [] && AllPlain(records) && DistinctAccessions(records)
    ensures Parse(FastaText(records, width)).Ok?
    ensures Parse(FastaText(records, width)).value.Keys == Accessions(records)
    ensures forall i :: 0 <= i < |records| ==>
      Parse(FastaText(records, width)).value[records[i].accession] == records[i].sequence
  {
    RoundTrip(records, width);
    CollectionKeys(records);
    CollectionValues(records);
  }

  /** The empty collection does not round-trip: its text is one empty line, read before any header. */
  lemma EmptyCollectionFails(width: nat)
    requires width > 0
    ensures Parse(FastaText([], width)) == Err(UnboundId)
  {
    assert Lines("") == [""];
    assert [""][..0] == [];
  }
}
