/**
 * The FASTA parser of CompareProteinsEvolutionary (`_parse_fasta`): the text
 * is split on newlines; a line starting with `>` opens a record whose key is
 * the second `|`-field of the line once every `>` is removed, and every other
 * line is stripped and appended to the value of the current record.
 */
module Fasta {
  import opened Wrappers
  import opened PyText

  /** How the Python code fails. */
  datatype ParseError =
    | UnboundId              // a sequence line before any header: `Id` is not yet bound
    | NoKeyField(line: nat)  // a header with no second `|`-field: the index `[1]` fails

  /** The loop's variables: the current key `Id` (unbound at first) and the dictionary. */
  datatype State = State(current: Option<string>, entries: map<string, string>)

  /** `fasta_string.split("\n")`. */
  function Lines(text: string): seq<string> {
    Split(text, '\n')
  }

  /** `line.startswith(">")`. */
  predicate IsHeader(line: string) {
    StartsWith(line, '>')
  }

  /** `line.replace(">", "").split("|")[1]`, or None where the index fails. */
  function HeaderKey(line: string): (key: Option<string>)
    ensures key.Some? <==> '|' in line
    ensures key.Some? ==> '|' !in key.value
  {
    var fields := Split(RemoveAll(line, '>'), '|');
    assert '|' in RemoveAll(line, '>') <==> '|' in line by {
      assert multiset(RemoveAll(line, '>'))['|'] == multiset(line)['|'];
    }
    if |fields| >= 2 then Some(fields[1]) else None
  }

  /** The current key, when bound, always names an entry. */
  predicate Consistent(st: State) {
    st.current.Some? ==> st.current.value in st.entries
  }

  /** One iteration of the loop over the lines, at line number `index`. */
  function Step(st: State, line: string, index: nat): (r: Result<State, ParseError>)
    requires Consistent(st)
    ensures r.Ok? ==> Consistent(r.value) && r.value.current.Some?
    ensures r.Ok? <==> (if IsHeader(line) then '|' in line else st.current.Some?)
  {
    if IsHeader(line) then
      match HeaderKey(line)
      case None => Err(NoKeyField(index))
      case Some(key) => Ok(State(Some(key), st.entries[key := ""]))
    else
      match st.current
      case None => Err(UnboundId)
      case Some(key) => Ok(State(st.current, st.entries[key := st.entries[key] + Strip(line)]))
  }

  /** The loop run over `lines`, stopping at the first failing line. */
  function Run(lines: seq<string>): (r: Result<State, ParseError>)
    ensures r.Ok? ==> Consistent(r.value)
    ensures r.Ok? ==> (r.value.current.Some? <==> |lines| > 0)
    decreases |lines|
  {
    if lines == [] then Ok(State(None, map[]))
    else
      var n := |lines| - 1;
      match Run(lines[..n])
      case Err(e) => Err(e)
      case Ok(st) => Step(st, lines[n], n)
  }

  /** The dictionary `_parse_fasta` returns, or the error it raises. */
  function Parse(text: string): Result<map<string, string>, ParseError> {
    match Run(Lines(text))
    case Ok(st) => Ok(st.entries)
    case Err(e) => Err(e)
  }

  /** `_parse_fasta`: the loop over the lines, updating the dictionary in place. */
  method ParseFasta(fastaString: string) returns (r: Result<map<string, string>, ParseError>)
    ensures r == Parse(fastaString)
  {
    var lines := Lines(fastaString);
    var fastaDictionary: map<string, string> := map[];
    var id: Option<string> := None;
    for i := 0 to |lines|
      invariant Run(lines[..i]) == Ok(State(id, fastaDictionary))
    {
      var line := lines[i];
      assert lines[..i + 1][..i] == lines[..i];
      if IsHeader(line) {
        var key := HeaderKey(line);
        if key.None? {
          RunPrefixError(lines, i + 1);
          return Err(NoKeyField(i));
        }
        id := key;
        fastaDictionary := fastaDictionary[key.value := ""];
      } else {
        if id.None? {
          RunPrefixError(lines, i + 1);
          return Err(UnboundId);
        }
        fastaDictionary := fastaDictionary[id.value := fastaDictionary[id.value] + Strip(line)];
      }
    }
    assert lines[..|lines|] == lines;
    return Ok(fastaDictionary);
  }

  /** Once a prefix of the lines fails, the whole run fails with the same error. */
  lemma {:induction false} RunPrefixError(lines: seq<string>, i: nat)
    requires i <= |lines| && Run(lines[..i]).Err?
    ensures Run(lines) == Run(lines[..i])
    decreases |lines|
  {
    if i < |lines| {
      var n := |lines| - 1;
      assert lines[..n][..i] == lines[..i];
      RunPrefixError(lines[..n], i);
    } else {
      assert lines[..i] == lines;
    }
  }

  // ---------------------------------------------------------------------------
  // An independent description of the result, in terms of the lines.

  /** Input the parser accepts: the first line is a header and every header has a `|`. */
  predicate WellFormed(lines: seq<string>) {
    && (|lines| > 0 ==> IsHeader(lines[0]))
    && forall j :: 0 <= j < |lines| && IsHeader(lines[j]) ==> '|' in lines[j]
  }

  /** The keys of all header lines. */
  function HeaderKeys(lines: seq<string>): set<string> {
    set j | 0 <= j < |lines| && IsHeader(lines[j]) && '|' in lines[j] :: HeaderKey(lines[j]).value
  }

  /** Line `j` is a header with a key and no later header has the same key. */
  predicate LastHeaderFor(lines: seq<string>, j: int) {
    && 0 <= j < |lines|
    && IsHeader(lines[j])
    && HeaderKey(lines[j]).Some?
    && forall m :: j < m < |lines| && IsHeader(lines[m]) ==> HeaderKey(lines[m]) != HeaderKey(lines[j])
  }

  /** The stripped lines that follow, concatenated up to the next header. */
  function Body(lines: seq<string>): string
    decreases |lines|
  {
    if lines == [] || IsHeader(lines[0]) then "" else Strip(lines[0]) + Body(lines[1..])
  }

  /** Index of the last header line, or -1 when there is none. */
  function LastHeader(lines: seq<string>): (j: int)
    ensures -1 <= j < |lines|
    ensures j >= 0 ==> IsHeader(lines[j])
    ensures forall m :: j < m < |lines| ==> !IsHeader(lines[m])
  {
    if lines == [] then -1
    else if IsHeader(lines[|lines| - 1]) then |lines| - 1
    else LastHeader(lines[..|lines| - 1])
  }

  /** Line `j` is a header whose key's entry holds the body that follows line `j`. */
  ghost predicate EntryIsBody(lines: seq<string>, st: State, j: nat) {
    && j < |lines|
    && HeaderKey(lines[j]).Some?
    && HeaderKey(lines[j]).value in st.entries
    && st.entries[HeaderKey(lines[j]).value] == Body(lines[j + 1..])
  }

  /** Every key's entry holds the body after the last header with that key. */
  ghost predicate ValuesSummarised(lines: seq<string>, st: State) {
    forall j: nat :: j < |lines| && LastHeaderFor(lines, j) ==> EntryIsBody(lines, st, j)
  }

  /** What the loop state says about the lines read so far. */
  ghost predicate Summarises(lines: seq<string>, st: State) {
    && st.entries.Keys == HeaderKeys(lines)
    && (LastHeader(lines) < 0 ==> st.current == None)
    && (LastHeader(lines) >= 0 ==> st.current == HeaderKey(lines[LastHeader(lines)]))
    && ValuesSummarised(lines, st)
  }

  /** Appending a line to a stretch of lines extends its body only when no header intervenes. */
  lemma {:induction false} BodyAppend(s: seq<string>, x: string)
    ensures Body(s + [x]) ==
      if (forall m :: 0 <= m < |s| ==> !IsHeader(s[m])) && !IsHeader(x) then Body(s) + Strip(x) else Body(s)
    decreases |s|
  {
    if s == [] {
      assert [x][1..] == [];
    } else {
      assert (s + [x])[1..] == s[1..] + [x];
      BodyAppend(s[1..], x);
      if !IsHeader(s[0]) {
        assert (forall m :: 0 <= m < |s| ==> !IsHeader(s[m])) <==>
               (forall m :: 0 <= m < |s[1..]| ==> !IsHeader(s[1..][m]));
      }
    }
  }

  lemma HeaderKeysAppend(lines: seq<string>, x: string)
    ensures HeaderKeys(lines + [x]) ==
      HeaderKeys(lines) + if IsHeader(x) && '|' in x then {HeaderKey(x).value} else {}
  {
    var ls := lines + [x];
    forall k | k in HeaderKeys(ls)
      ensures k in HeaderKeys(lines) + if IsHeader(x) && '|' in x then {HeaderKey(x).value} else {}
    {
      var j :| 0 <= j < |ls| && IsHeader(ls[j]) && '|' in ls[j] && HeaderKey(ls[j]).value == k;
      if j < |lines| { assert ls[j] == lines[j]; }
    }
    forall k | k in HeaderKeys(lines) ensures k in HeaderKeys(ls) {
      var j :| 0 <= j < |lines| && IsHeader(lines[j]) && '|' in lines[j] && HeaderKey(lines[j]).value == k;
      assert ls[j] == lines[j];
    }
    if IsHeader(x) && '|' in x {
      assert ls[|lines|] == x;
    }
  }

  /** A header that is the last for its key in `p + [x]` was the last for it in `p` too. */
  lemma LastHeaderForPrefix(p: seq<string>, x: string, j: nat)
    requires j < |p| && LastHeaderFor(p + [x], j)
    ensures LastHeaderFor(p, j)
  {
    var lines := p + [x];
    assert lines[j] == p[j];
    forall m | j < m < |p| && IsHeader(p[m]) ensures HeaderKey(p[m]) != HeaderKey(p[j]) {
      assert lines[m] == p[m];
    }
  }

  /** After a header line with key `key`, every other key keeps its entry and its body. */
  lemma HeaderStepEntry(p: seq<string>, x: string, st: State, j: nat)
    requires IsHeader(x) && '|' in x
    requires j < |p| && LastHeaderFor(p + [x], j)
    requires LastHeaderFor(p, j) ==> EntryIsBody(p, st, j)
    ensures EntryIsBody(p + [x], State(HeaderKey(x), st.entries[HeaderKey(x).value := ""]), j)
  {
    var lines := p + [x];
    assert lines[|p|] == x;
    LastHeaderForPrefix(p, x, j);
    assert lines[j] == p[j];
    assert lines[j + 1..] == p[j + 1..] + [x];
    BodyAppend(p[j + 1..], x);
  }

  /** A header line with a key resets its key's entry and makes it current. */
  lemma SummarisesHeader(p: seq<string>, x: string, st: State)
    requires Summarises(p, st) && IsHeader(x) && '|' in x
    ensures Summarises(p + [x], State(HeaderKey(x), st.entries[HeaderKey(x).value := ""]))
  {
    var lines, key := p + [x], HeaderKey(x).value;
    var st' := State(HeaderKey(x), st.entries[key := ""]);
    HeaderKeysAppend(p, x);
    assert lines[|p|] == x;
    assert lines[|p| + 1..] == [];
    forall j: nat | j < |lines| && LastHeaderFor(lines, j) ensures EntryIsBody(lines, st', j) {
      if j < |p| {
        HeaderStepEntry(p, x, st, j);
      }
    }
  }

  /** No line after the last header is a header. */
  lemma AfterLastHeader(p: seq<string>)
    requires LastHeader(p) >= 0
    ensures var t := p[LastHeader(p) + 1..]; forall m :: 0 <= m < |t| ==> !IsHeader(t[m])
  {
    var J := LastHeader(p);
    var t := p[J + 1..];
    forall m | 0 <= m < |t| ensures !IsHeader(t[m]) {
      assert t[m] == p[J + 1 + m];
    }
  }

  /** The current key's entry grows by the stripped sequence line. */
  lemma BodyStepCurrentEntry(p: seq<string>, x: string, st: State)
    requires !IsHeader(x) && Consistent(st) && st.current.Some?
    requires LastHeader(p) >= 0 && st.current == HeaderKey(p[LastHeader(p)])
    requires LastHeaderFor(p, LastHeader(p)) ==> EntryIsBody(p, st, LastHeader(p))
    ensures var key := st.current.value;
      EntryIsBody(p + [x], State(st.current, st.entries[key := st.entries[key] + Strip(x)]), LastHeader(p))
  {
    var J, key := LastHeader(p), st.current.value;
    CurrentEntryIsBody(p, st);
    BodyAfterLastHeader(p, x);
    assert (p + [x])[J] == p[J];
    EntryIsBodyUpdate(p + [x], st, J, key, st.entries[key] + Strip(x));
  }

  /** Binding a header's key to the body after it makes that header's entry its body. */
  lemma EntryIsBodyUpdate(lines: seq<string>, st: State, j: nat, key: string, v: string)
    requires j < |lines| && HeaderKey(lines[j]) == Some(key) && Body(lines[j + 1..]) == v
    ensures EntryIsBody(lines, State(st.current, st.entries[key := v]), j)
  {
  }

  /** Before a sequence line, the current key's entry is the body after the last header. */
  lemma CurrentEntryIsBody(p: seq<string>, st: State)
    requires st.current.Some? && LastHeader(p) >= 0 && st.current == HeaderKey(p[LastHeader(p)])
    requires LastHeaderFor(p, LastHeader(p)) ==> EntryIsBody(p, st, LastHeader(p))
    ensures st.current.value in st.entries
    ensures st.entries[st.current.value] == Body(p[LastHeader(p) + 1..])
  {
    LastHeaderIsLastFor(p);
  }

  /** The last header, when it has a key, is the last header for that key. */
  lemma LastHeaderIsLastFor(p: seq<string>)
    requires LastHeader(p) >= 0 && HeaderKey(p[LastHeader(p)]).Some?
    ensures LastHeaderFor(p, LastHeader(p))
  {
  }

  /** A sequence line extends the body after the last header by its stripped text. */
  lemma BodyAfterLastHeader(p: seq<string>, x: string)
    requires LastHeader(p) >= 0 && !IsHeader(x)
    ensures Body((p + [x])[LastHeader(p) + 1..]) == Body(p[LastHeader(p) + 1..]) + Strip(x)
  {
    var J := LastHeader(p);
    assert (p + [x])[J + 1..] == p[J + 1..] + [x];
    AfterLastHeader(p);
    BodyAppend(p[J + 1..], x);
  }

  /** An entry whose header is followed by a later header is untouched by appending a sequence line for another key. */
  lemma OtherEntryKept(p: seq<string>, x: string, st: State, j: nat, J: nat, key: string, v: string)
    requires j < J < |p| && IsHeader(p[J]) && !IsHeader(x)
    requires HeaderKey(p[j]).Some? && HeaderKey(p[j]).value != key
    requires EntryIsBody(p, st, j)
    ensures EntryIsBody(p + [x], State(st.current, st.entries[key := v]), j)
  {
    var t := p[j + 1..];
    assert (p + [x])[j] == p[j];
    assert (p + [x])[j + 1..] == t + [x];
    assert t[J - j - 1] == p[J];
    BodyAppend(t, x);
  }

  /** A header whose key differs from the last header's key comes before the last header. */
  lemma BeforeLastHeader(p: seq<string>, j: nat)
    requires j < |p| && IsHeader(p[j]) && LastHeader(p) >= 0
    requires HeaderKey(p[j]) != HeaderKey(p[LastHeader(p)])
    ensures j < LastHeader(p)
  {
  }

  /** Keys other than the current one keep their entry and body across a sequence line. */
  lemma BodyStepOtherEntry(p: seq<string>, x: string, st: State, j: nat, v: string)
    requires !IsHeader(x) && st.current.Some?
    requires LastHeader(p) >= 0 && st.current == HeaderKey(p[LastHeader(p)])
    requires j < |p| && LastHeaderFor(p, j) && HeaderKey(p[j]) != st.current
    requires EntryIsBody(p, st, j)
    ensures EntryIsBody(p + [x], State(st.current, st.entries[st.current.value := v]), j)
  {
    BeforeLastHeader(p, j);
    OtherEntryKept(p, x, st, j, LastHeader(p), st.current.value, v);
  }

  /** After a sequence line, the current key's entry grows by the stripped line and the others keep theirs. */
  lemma BodyStepEntry(p: seq<string>, x: string, st: State, j: nat)
    requires !IsHeader(x) && Consistent(st) && st.current.Some?
    requires LastHeader(p) >= 0 && st.current == HeaderKey(p[LastHeader(p)])
    requires j < |p| && LastHeaderFor(p + [x], j)
    requires LastHeaderFor(p, j) ==> EntryIsBody(p, st, j)
    ensures var key := st.current.value;
      EntryIsBody(p + [x], State(st.current, st.entries[key := st.entries[key] + Strip(x)]), j)
  {
    var lines, J := p + [x], LastHeader(p);
    LastHeaderForPrefix(p, x, j);
    if HeaderKey(p[j]) == st.current {
      assert j == J;
      BodyStepCurrentEntry(p, x, st);
    } else {
      BodyStepOtherEntry(p, x, st, j, st.entries[st.current.value] + Strip(x));
    }
  }

  /** After a sequence line the last header is still the same one. */
  lemma LastHeaderAfterBody(p: seq<string>, x: string)
    requires !IsHeader(x)
    ensures LastHeader(p + [x]) == LastHeader(p)
    ensures LastHeader(p) >= 0 ==> (p + [x])[LastHeader(p)] == p[LastHeader(p)]
  {
    assert (p + [x])[..|p|] == p;
  }

  /** After a sequence line every key's entry holds the body after its last header. */
  lemma ValuesAfterBody(p: seq<string>, x: string, st: State)
    requires !IsHeader(x) && Consistent(st) && st.current.Some?
    requires LastHeader(p) >= 0 && st.current == HeaderKey(p[LastHeader(p)])
    requires ValuesSummarised(p, st)
    ensures var key := st.current.value;
      ValuesSummarised(p + [x], State(st.current, st.entries[key := st.entries[key] + Strip(x)]))
  {
    var lines, key := p + [x], st.current.value;
    var st' := State(st.current, st.entries[key := st.entries[key] + Strip(x)]);
    assert lines[|p|] == x;
    forall j: nat | j < |lines| && LastHeaderFor(lines, j) ensures EntryIsBody(lines, st', j) {
      assert j < |p|;
      BodyStepEntry(p, x, st, j);
    }
  }

  /** A sequence line extends the current entry by the stripped line. */
  lemma SummarisesBody(p: seq<string>, x: string, st: State)
    requires Summarises(p, st) && Consistent(st) && !IsHeader(x) && st.current.Some?
    ensures var key := st.current.value;
      Summarises(p + [x], State(st.current, st.entries[key := st.entries[key] + Strip(x)]))
  {
    HeaderKeysAppend(p, x);
    LastHeaderAfterBody(p, x);
    ValuesAfterBody(p, x, st);
  }

  /** The loop state after any successful prefix summarises that prefix. */
  lemma {:induction false} RunSummarises(lines: seq<string>)
    requires Run(lines).Ok?
    ensures Summarises(lines, Run(lines).value)
    decreases |lines|
  {
    if lines != [] {
      var n := |lines| - 1;
      var p, x := lines[..n], lines[n];
      assert lines == p + [x];
      RunSummarises(p);
      var st := Run(p).value;
      if IsHeader(x) {
        SummarisesHeader(p, x, st);
      } else {
        SummarisesBody(p, x, st);
      }
    }
  }

  lemma WellFormedAppend(p: seq<string>, x: string)
    ensures WellFormed(p + [x]) <==>
      (WellFormed(p) && (IsHeader(x) ==> '|' in x) && (p == [] ==> IsHeader(x)))
  {
    var lines := p + [x];
    assert lines[|p|] == x;
    assert forall j :: 0 <= j < |p| ==> lines[j] == p[j];
    if p != [] { assert lines[0] == p[0]; }
  }

  /** The parse of a list of lines succeeds exactly when the lines are well formed. */
  lemma {:induction false} RunOkIff(lines: seq<string>)
    ensures Run(lines).Ok? <==> WellFormed(lines)
    decreases |lines|
  {
    if lines != [] {
      var n := |lines| - 1;
      RunOkIff(lines[..n]);
      assert lines == lines[..n] + [lines[n]];
      WellFormedAppend(lines[..n], lines[n]);
    }
  }

  /**
   * Where a failing run fails: an unbound key only on a first line that is no
   * header, a missing key field only on the first header without `|`.
   */
  lemma {:induction false} RunErrorWhere(lines: seq<string>)
    requires Run(lines).Err?
    ensures Run(lines) == Err(UnboundId) ==> !IsHeader(lines[0])
    ensures forall j: nat :: Run(lines) == Err(NoKeyField(j)) ==>
      j < |lines| && IsHeader(lines[j]) && '|' !in lines[j] && WellFormed(lines[..j])
    decreases |lines|
  {
    var n := |lines| - 1;
    match Run(lines[..n])
    case Err(e) =>
      RunErrorWhere(lines[..n]);
      assert lines[..n][0] == lines[0];
      if e.NoKeyField? {
        assert lines[..n][..e.line] == lines[..e.line];
      }
    case Ok(st) =>
      RunOkIff(lines[..n]);
  }

  // ---------------------------------------------------------------------------
  // The properties of `_parse_fasta`.

  /** `_parse_fasta` raises exactly on input that is not well formed. */
  lemma ParseSucceedsIff(text: string)
    ensures Parse(text).Ok? <==> WellFormed(Lines(text))
  {
    RunOkIff(Lines(text));
  }

  /**
   * Which error: a first line that is not a header (the empty text included)
   * leaves `Id` unbound; otherwise the failing line is the first header without `|`.
   */
  lemma ParseErrors(text: string)
    ensures Parse(text) == Err(UnboundId) <==> !IsHeader(Lines(text)[0])
    ensures forall j: nat :: Parse(text) == Err(NoKeyField(j)) <==>
      var lines := Lines(text);
      j < |lines| && IsHeader(lines[j]) && '|' !in lines[j] && WellFormed(lines[..j])
  {
    var lines := Lines(text);
    if !IsHeader(lines[0]) {
      assert lines[..1] == [lines[0]];
      RunPrefixError(lines, 1);
    }
    forall j: nat | j < |lines| && IsHeader(lines[j]) && '|' !in lines[j] && WellFormed(lines[..j])
      ensures Parse(text) == Err(NoKeyField(j))
    {
      RunOkIff(lines[..j]);
      assert lines[..j + 1][..j] == lines[..j];
      RunPrefixError(lines, j + 1);
    }
    if Run(lines).Err? {
      RunErrorWhere(lines);
    }
  }

  /** The keys are exactly the header keys; so there are as many entries as distinct header keys. */
  lemma ParseKeys(text: string)
    requires Parse(text).Ok?
    ensures Parse(text).value.Keys == HeaderKeys(Lines(text))
    ensures |Parse(text).value| == |HeaderKeys(Lines(text))|
  {
    RunSummarises(Lines(text));
  }

  /**
   * Last header wins, and the value is the concatenation of the stripped
   * lines after that header up to the next header or the end of the text.
   */
  lemma ParseValues(text: string, j: nat)
    requires Parse(text).Ok?
    requires LastHeaderFor(Lines(text), j)
    ensures HeaderKey(Lines(text)[j]).value in Parse(text).value
    ensures Parse(text).value[HeaderKey(Lines(text)[j]).value] == Body(Lines(text)[j + 1..])
  {
    RunSummarises(Lines(text));
  }

  /** A body never starts or ends with whitespace. */
  lemma {:induction false} BodyTrimmed(lines: seq<string>)
    ensures var b := Body(lines); b == "" || (!IsSpace(b[0]) && !IsSpace(b[|b| - 1]))
    decreases |lines|
  {
    if lines != [] && !IsHeader(lines[0]) {
      BodyTrimmed(lines[1..]);
      StripSpec(lines[0]);
      var a, b := Strip(lines[0]), Body(lines[1..]);
      if a != "" { assert (a + b)[0] == a[0]; } else { assert a + b == b; }
      if b != "" { assert (a + b)[|a + b| - 1] == b[|b| - 1]; } else { assert a + b == a; }
    }
  }

  /** Some header at or after `j` carries the key of header `j` and is the last to do so. */
  lemma {:induction false} LastWithKey(lines: seq<string>, j: nat) returns (last: nat)
    requires j < |lines| && IsHeader(lines[j]) && '|' in lines[j]
    ensures j <= last && LastHeaderFor(lines, last) && HeaderKey(lines[last]) == HeaderKey(lines[j])
    decreases |lines| - j
  {
    if LastHeaderFor(lines, j) {
      last := j;
    } else {
      var m :| j < m < |lines| && IsHeader(lines[m]) && HeaderKey(lines[m]) == HeaderKey(lines[j]);
      last := LastWithKey(lines, m);
    }
  }

  /** No value of the dictionary begins or ends with whitespace. */
  lemma ParseValuesTrimmed(text: string, k: string)
    requires Parse(text).Ok? && k in Parse(text).value
    ensures var v := Parse(text).value[k]; v == "" || (!IsSpace(v[0]) && !IsSpace(v[|v| - 1]))
  {
    var lines := Lines(text);
    ParseKeys(text);
    assert k in HeaderKeys(lines);
    var j :| 0 <= j < |lines| && IsHeader(lines[j]) && '|' in lines[j] && HeaderKey(lines[j]).value == k;
    var last := LastWithKey(lines, j);
    ParseValues(text, last);
    BodyTrimmed(lines[last + 1..]);
  }

  /** A whitespace-only line adds nothing wherever it sits among body lines. */
  lemma {:induction false} BlankLineAddsNothing(lines: seq<string>, i: nat, w: string)
    requires i <= |lines|
    requires forall k :: 0 <= k < |w| ==> IsSpace(w[k])
    ensures Body(lines[..i] + [w] + lines[i..]) == Body(lines)
    decreases i
  {
    assert !IsHeader(w) by { if |w| > 0 { assert IsSpace(w[0]); } }
    StripSpec(w);
    if i == 0 {
      assert (lines[..0] + [w] + lines[0..])[1..] == lines;
    } else {
      var t := lines[..i] + [w] + lines[i..];
      assert t[0] == lines[0];
      if !IsHeader(lines[0]) {
        assert t[1..] == lines[1..][..i - 1] + [w] + lines[1..][i - 1..];
        BlankLineAddsNothing(lines[1..], i - 1, w);
      }
    }
  }

  /** The empty line a trailing newline leaves changes nothing, error cases included. */
  lemma TrailingNewlineIgnored(text: string)
    ensures Parse(text + "\n") == Parse(text)
  {
    var lines := Lines(text);
    SplitAppendSeparator(text, '\n');
    var lines' := lines + [""];
    assert lines'[..|lines|] == lines;
    if Run(lines).Ok? {
      var st := Run(lines).value;
      var key := st.current.value;
      assert st.entries[key] + "" == st.entries[key];
      assert st.entries[key := st.entries[key] + ""] == st.entries;
    }
  }

  /** The fields of a UniProt header, joined by `|`. */
  function HeaderText(db: string, accession: string, name: string): string {
    db + "|" + accession + "|" + name
  }

  /** Text that is empty or starts a new `|`-field. */
  predicate FieldTail(rest: string) {
    rest == "" || rest[0] == '|'
  }

  /** A header line: `>`, a database field, `|`, the accession field, then the rest. */
  function HeaderLine(db: string, accession: string, rest: string): string {
    ">" + db + "|" + accession + rest
  }

  /** The header line, grouped from the right. */
  lemma HeaderLineGrouped(db: string, accession: string, rest: string)
    ensures HeaderLine(db, accession, rest) == ['>'] + (db + (['|'] + (accession + rest)))
  {
  }

  /** Removing `>` from a header line works field by field. */
  lemma RemoveMarkers(db: string, accession: string, rest: string)
    ensures RemoveAll(['>'] + (db + (['|'] + (accession + rest))), '>') ==
      RemoveAll(db, '>') + (['|'] + (RemoveAll(accession, '>') + RemoveAll(rest, '>')))
  {
    var t := accession + rest;
    var u := ['|'] + t;
    RemoveAllCons('>', db + u, '>');
    RemoveAllConcat(db, u, '>');
    RemoveAllCons('|', t, '>');
    RemoveAllConcat(accession, rest, '>');
  }

  /** Removing `>` keeps a field tail a field tail. */
  lemma RemoveMarkersTail(rest: string)
    requires FieldTail(rest)
    ensures FieldTail(RemoveAll(rest, '>'))
  {
    if rest != "" {
      RemoveAllCons(rest[0], rest[1..], '>');
      assert rest == [rest[0]] + rest[1..];
    }
  }

  /** A first field without `|`, then `|`, splits off as the first piece. */
  lemma SplitFirstField(a: string, more: string)
    requires '|' !in a
    ensures Split(a + (['|'] + more), '|') == [a] + Split(more, '|')
  {
    assert a + (['|'] + more) == a + ['|'] + more;
    SplitCons(a, more, '|');
  }

  /** A field without `|` followed by nothing or by further fields is the first piece. */
  lemma SplitLeadingField(b: string, tail: string)
    requires '|' !in b && FieldTail(tail)
    ensures Split(b + tail, '|')[0] == b
  {
    if tail == "" {
      SplitWhole(b + tail, '|');
      assert b + tail == b;
    } else {
      var more := tail[1..];
      assert tail == ['|'] + more;
      SplitFirstField(b, more);
    }
  }

  /** The second `|`-field of `a|b` followed by nothing or by further fields is `b`. */
  lemma SecondField(a: string, b: string, tail: string)
    requires '|' !in a && '|' !in b && FieldTail(tail)
    ensures |Split(a + (['|'] + (b + tail)), '|')| >= 2
    ensures Split(a + (['|'] + (b + tail)), '|')[1] == b
  {
    SplitFirstField(a, b + tail);
    SplitLeadingField(b, tail);
  }

  /**
   * A header `>db|accession` followed by nothing or by further `|`-fields has
   * the accession, with any `>` removed, as key; e.g. `>sp|P0AFL3|PPIA_ECOLI`
   * gives `P0AFL3`, and so does `>sp|P0AFL3`.
   */
  lemma AccessionHeaderKey(db: string, accession: string, rest: string)
    requires '|' !in db && '|' !in accession && FieldTail(rest)
    ensures HeaderKey(HeaderLine(db, accession, rest)) == Some(RemoveAll(accession, '>'))
  {
    var line := HeaderLine(db, accession, rest);
    var key := RemoveAll(accession, '>');
    HeaderLineGrouped(db, accession, rest);
    RemoveMarkers(db, accession, rest);
    RemoveMarkersTail(rest);
    RemoveAllKeeps(db, '>', '|');
    RemoveAllKeeps(accession, '>', '|');
    SecondField(RemoveAll(db, '>'), key, RemoveAll(rest, '>'));
    HeaderKeyIs(line, key);
  }

  /** A line whose second `|`-field, once `>` is removed, is `key` has `key` as its key. */
  lemma HeaderKeyIs(line: string, key: string)
    requires var fields := Split(RemoveAll(line, '>'), '|'); |fields| >= 2 && fields[1] == key
    ensures HeaderKey(line) == Some(key)
  {
  }

  /** The key of a UniProt header `>db|accession|name` with no `>` in the accession is the accession. */
  lemma UniProtHeaderKey(db: string, accession: string, name: string)
    requires '|' !in db && '|' !in accession && '>' !in accession
    ensures HeaderKey(">" + HeaderText(db, accession, name)) == Some(accession)
  {
    assert ">" + HeaderText(db, accession, name) == HeaderLine(db, accession, "|" + name);
    AccessionHeaderKey(db, accession, "|" + name);
  }
}
