/**
 * The URL of the UniProtKB query service (`UniProtKB_Query`): `glueParameters`
 * accumulates `key=value&` for every keyword argument in order, replaces each
 * space by `+` and drops the last character; `generateURL` puts the base URL
 * in front of that.
 */
module Query {
  import opened PyText

  const BaseUrl := "https://www.uniprot.org/uniprot/?"

  /** The keyword arguments of `UniProtKB_Query`, apart from the file name. */
  datatype QueryRequest = QueryRequest(
    query: string,
    format: string,
    columns: string,
    includeIsoforms: string,  // the `include` argument
    compress: string,
    limit: int,
    offset: int)

  /** The defaults of `UniProtKB_Query`. */
  const DefaultRequest := QueryRequest("", "list", "", "no", "no", 0, 0)

  /** The seven keyword names of `UniProtKB_Query`, in order, paired with their rendered values. */
  function Keyed(query: string, format: string, columns: string, includeIsoforms: string,
                 compress: string, limit: string, offset: string): seq<(string, string)> {
    [ ("query", query), ("format", format), ("columns", columns),
      ("include", includeIsoforms), ("compress", compress),
      ("limit", limit), ("offset", offset) ]
  }

  /** The keyword arguments `generateURL` passes to `glueParameters`, in order, each value rendered by `str`. */
  function Parameters(req: QueryRequest): seq<(string, string)> {
    Keyed(req.query, req.format, req.columns, req.includeIsoforms, req.compress,
          IntToString(req.limit), IntToString(req.offset))
  }

  /** One `key=value` field. */
  function Field(p: (string, string)): string {
    p.0 + "=" + p.1
  }

  /** The fields of all parameters, in order. */
  function Fields(params: seq<(string, string)>): seq<string> {
    seq(|params|, i requires 0 <= i < |params| => Field(params[i]))
  }

  /** What the accumulation loop of `glueParameters` has built after the given parameters. */
  function Accumulated(params: seq<(string, string)>): string
    decreases |params|
  {
    if params == [] then ""
    else
      var n := |params| - 1;
      Accumulated(params[..n]) + params[n].0 + "=" + params[n].1 + "&"
  }

  /**
   * The glued parameter string as intended: the fields joined by `&`, with
   * every space turned into `+` (no parameters give the empty string).
   */
  function Glued(params: seq<(string, string)>): string {
    if params == [] then "" else ReplaceChar(Join(Fields(params), '&'), ' ', '+')
  }

  /** `Join` with one more piece at the end. */
  lemma {:induction false} JoinAppend(parts: seq<string>, x: string, sep: char)
    requires |parts| >= 1
    ensures Join(parts + [x], sep) == Join(parts, sep) + [sep] + x
    decreases |parts|
  {
    if |parts| == 1 {
      assert (parts + [x])[1..] == [x];
    } else {
      assert (parts + [x])[1..] == parts[1..] + [x];
      JoinAppend(parts[1..], x, sep);
    }
  }

  /** The loop leaves exactly one `&` too many: the fields joined by `&`, plus a trailing `&`. */
  lemma {:induction false} AccumulatedIsJoinPlusSeparator(params: seq<(string, string)>)
    requires params != []
    ensures Accumulated(params) == Join(Fields(params), '&') + "&"
    decreases |params|
  {
    var n := |params| - 1;
    if n == 0 {
      assert params[..0] == [];
      assert Fields(params) == [Field(params[0])];
    } else {
      AccumulatedIsJoinPlusSeparator(params[..n]);
      assert Fields(params) == Fields(params[..n]) + [Field(params[n])];
      JoinAppend(Fields(params[..n]), Field(params[n]), '&');
    }
  }

  /** `glueParameters`: the loop accumulating `key=value&`, then the replace and the `[:-1]`. */
  method GlueParameters(params: seq<(string, string)>) returns (glued: string)
    ensures glued == Glued(params)
  {
    var gluedParameters := "";
    for i := 0 to |params|
      invariant gluedParameters == Accumulated(params[..i])
    {
      assert params[..i + 1][..i] == params[..i];
      gluedParameters := gluedParameters + params[i].0 + "=" + params[i].1 + "&";
    }
    assert params[..|params|] == params;
    glued := DropLast(ReplaceChar(gluedParameters, ' ', '+'));
    if params != [] {
      var joined := Join(Fields(params), '&');
      AccumulatedIsJoinPlusSeparator(params);
      ReplaceCharConcat(joined, "&", ' ', '+');
      assert ReplaceChar("&", ' ', '+') == "&";
    }
  }

  /** `generateURL`: the base URL, untouched, followed by the glued parameters. */
  method GenerateUrl(baseUrl: string, req: QueryRequest) returns (url: string)
    ensures url == baseUrl + Glued(Parameters(req))
  {
    var glued := GlueParameters(Parameters(req));
    url := baseUrl + glued;
  }

  /** The URL `UniProtKB_Query` downloads from (the download itself is not modelled). */
  method QueryUrl(req: QueryRequest) returns (url: string)
    ensures url == BaseUrl + Glued(Parameters(req))
  {
    url := GenerateUrl(BaseUrl, req);
  }

  /** Spaces become `+`; nothing else changes. */
  function Plus(s: string): (r: string)
    ensures |r| == |s| && ' ' !in r
    ensures forall k :: 0 <= k < |s| ==> r[k] == if s[k] == ' ' then '+' else s[k]
  {
    ReplaceChar(s, ' ', '+')
  }

  lemma PlusNoSpace(s: string)
    requires ' ' !in s
    ensures Plus(s) == s
  {
    assert forall k :: 0 <= k < |s| ==> Plus(s)[k] == s[k];
  }

  /** `+` does not create an `&`. */
  lemma PlusKeepsAmpersands(s: string)
    ensures '&' in Plus(s) <==> '&' in s
  {
    var r := Plus(s);
    if '&' in r {
      var k :| 0 <= k < |r| && r[k] == '&';
      assert s[k] == '&';
    }
    if '&' in s {
      var k :| 0 <= k < |s| && s[k] == '&';
      assert r[k] == '&';
    }
  }

  /** Every piece with its spaces turned into `+`. */
  function PlusAll(parts: seq<string>): seq<string> {
    seq(|parts|, i requires 0 <= i < |parts| => Plus(parts[i]))
  }

  /** Replacing spaces in a join replaces them in each piece, as the separator is no space. */
  lemma {:induction false} PlusJoin(parts: seq<string>, sep: char)
    requires |parts| >= 1 && sep != ' '
    ensures Plus(Join(parts, sep)) == Join(PlusAll(parts), sep)
    decreases |parts|
  {
    if |parts| > 1 {
      PlusJoin(parts[1..], sep);
      ReplaceCharConcat(parts[0] + [sep], Join(parts[1..], sep), ' ', '+');
      ReplaceCharConcat(parts[0], [sep], ' ', '+');
      PlusNoSpace([sep]);
      assert PlusAll(parts)[1..] == PlusAll(parts[1..]);
    }
  }

  /** A key without spaces is kept, the value gets its spaces turned into `+`. */
  lemma PlusField(key: string, value: string)
    requires ' ' !in key
    ensures Plus(Field((key, value))) == key + "=" + Plus(value)
  {
    ReplaceCharConcat(key + "=", value, ' ', '+');
    PlusNoSpace(key + "=");
  }

  /** The seven `key=value` fields of a request in their fixed order, spaces in the values turned into `+`. */
  function PlusFields(req: QueryRequest): seq<string> {
    [ "query=" + Plus(req.query), "format=" + Plus(req.format), "columns=" + Plus(req.columns),
      "include=" + Plus(req.includeIsoforms), "compress=" + Plus(req.compress),
      "limit=" + IntToString(req.limit), "offset=" + IntToString(req.offset) ]
  }

  /** Field `i`, spaces turned into `+`, when its key has no spaces. */
  lemma PlusFieldAt(params: seq<(string, string)>, i: nat, key: string, value: string)
    requires i < |params| && params[i] == (key, value) && ' ' !in key
    ensures PlusAll(Fields(params))[i] == key + "=" + Plus(value)
  {
    PlusField(key, value);
  }

  /** Each key followed by `=`. */
  lemma KeysWithEquals()
    ensures "query" + "=" == "query=" && "format" + "=" == "format=" && "columns" + "=" == "columns="
    ensures "include" + "=" == "include=" && "compress" + "=" == "compress="
    ensures "limit" + "=" == "limit=" && "offset" + "=" == "offset="
  {
  }

  /** A sequence of seven elements is the display of its elements. */
  lemma SevenOf<T>(s: seq<T>, a: T, b: T, c: T, d: T, e: T, f: T, g: T)
    requires |s| == 7
    requires s[0] == a && s[1] == b && s[2] == c && s[3] == d && s[4] == e && s[5] == f && s[6] == g
    ensures s == [a, b, c, d, e, f, g]
  {
  }

  /** The seven fields of `Keyed` values, spaces turned into `+`; the keys have no spaces. */
  lemma PlusAllKeyed(a: string, b: string, c: string, d: string, e: string, f: string, g: string)
    ensures PlusAll(Fields(Keyed(a, b, c, d, e, f, g))) ==
      [ "query=" + Plus(a), "format=" + Plus(b), "columns=" + Plus(c), "include=" + Plus(d),
        "compress=" + Plus(e), "limit=" + Plus(f), "offset=" + Plus(g) ]
  {
    var ps := Keyed(a, b, c, d, e, f, g);
    PlusFieldAt(ps, 0, "query", a);
    PlusFieldAt(ps, 1, "format", b);
    PlusFieldAt(ps, 2, "columns", c);
    PlusFieldAt(ps, 3, "include", d);
    PlusFieldAt(ps, 4, "compress", e);
    PlusFieldAt(ps, 5, "limit", f);
    PlusFieldAt(ps, 6, "offset", g);
    KeysWithEquals();
    SevenOf(PlusAll(Fields(ps)), "query=" + Plus(a), "format=" + Plus(b), "columns=" + Plus(c),
            "include=" + Plus(d), "compress=" + Plus(e), "limit=" + Plus(f), "offset=" + Plus(g));
  }

  /**
   * The glued string is `query=Q&format=F&columns=C&include=I&compress=Z&limit=L&offset=O`:
   * the seven fields in exactly this order, joined by `&`, spaces turned into `+`.
   */
  lemma GluedLayout(req: QueryRequest)
    ensures Glued(Parameters(req)) == Join(PlusFields(req), '&')
  {
    var limit, offset := IntToString(req.limit), IntToString(req.offset);
    var ps := Keyed(req.query, req.format, req.columns, req.includeIsoforms, req.compress, limit, offset);
    assert Parameters(req) == ps;
    PlusJoin(Fields(ps), '&');
    PlusAllKeyed(req.query, req.format, req.columns, req.includeIsoforms, req.compress, limit, offset);
    PlusNoSpace(limit);
    PlusNoSpace(offset);
  }

  /** An integer in decimal has no `&`. */
  lemma IntHasNoAmpersand(i: int)
    ensures '&' !in IntToString(i)
  {
  }

  /** The seven fields have no `&` when their values have none (the keys have none). */
  lemma SevenFieldsHaveNoAmpersand(a: string, b: string, c: string, d: string, e: string, f: string, g: string)
    requires '&' !in a && '&' !in b && '&' !in c && '&' !in d && '&' !in e && '&' !in f && '&' !in g
    ensures var fs := [ "query=" + a, "format=" + b, "columns=" + c, "include=" + d,
                        "compress=" + e, "limit=" + f, "offset=" + g ];
      forall k :: 0 <= k < |fs| ==> '&' !in fs[k]
  {
  }

  /** When no string value contains `&`, no field does. */
  lemma FieldsHaveNoAmpersand(req: QueryRequest)
    requires '&' !in req.query && '&' !in req.format && '&' !in req.columns
    requires '&' !in req.includeIsoforms && '&' !in req.compress
    ensures forall k :: 0 <= k < |PlusFields(req)| ==> '&' !in PlusFields(req)[k]
  {
    PlusKeepsAmpersands(req.query);
    PlusKeepsAmpersands(req.format);
    PlusKeepsAmpersands(req.columns);
    PlusKeepsAmpersands(req.includeIsoforms);
    PlusKeepsAmpersands(req.compress);
    IntHasNoAmpersand(req.limit);
    IntHasNoAmpersand(req.offset);
    SevenFieldsHaveNoAmpersand(Plus(req.query), Plus(req.format), Plus(req.columns), Plus(req.includeIsoforms),
                               Plus(req.compress), IntToString(req.limit), IntToString(req.offset));
  }

  /**
   * When no value contains `&`, the part after the base URL splits on `&` into
   * exactly the seven fields, in the fixed order.
   */
  lemma GluedSplitsIntoFields(req: QueryRequest)
    requires '&' !in req.query && '&' !in req.format && '&' !in req.columns
    requires '&' !in req.includeIsoforms && '&' !in req.compress
    ensures Split(Glued(Parameters(req)), '&') == PlusFields(req)
  {
    GluedLayout(req);
    FieldsHaveNoAmpersand(req);
    SplitJoin(PlusFields(req), '&');
  }

  /** `Join` of seven pieces written out. */
  lemma JoinSeven(a: string, b: string, c: string, d: string, e: string, f: string, g: string, sep: char)
    ensures Join([a, b, c, d, e, f, g], sep) ==
      a + [sep] + b + [sep] + c + [sep] + d + [sep] + e + [sep] + f + [sep] + g
  {
    var s := [a, b, c, d, e, f, g];
    assert s[6..] == [g];
    assert Join(s[5..], sep) == f + [sep] + g by { assert s[5..][1..] == s[6..]; }
    assert Join(s[4..], sep) == e + [sep] + Join(s[5..], sep) by { assert s[4..][1..] == s[5..]; }
    assert Join(s[3..], sep) == d + [sep] + Join(s[4..], sep) by { assert s[3..][1..] == s[4..]; }
    assert Join(s[2..], sep) == c + [sep] + Join(s[3..], sep) by { assert s[2..][1..] == s[3..]; }
    assert Join(s[1..], sep) == b + [sep] + Join(s[2..], sep) by { assert s[1..][1..] == s[2..]; }
  }

  /** The seven fields of a request with every argument but the query at its default. */
  lemma DefaultFields(query: string)
    ensures PlusFields(DefaultRequest.(query := query)) ==
      ["query=" + Plus(query), "format=list", "columns=", "include=no", "compress=no", "limit=0", "offset=0"]
  {
    PlusNoSpace("list");
    PlusNoSpace("no");
    assert Plus("") == "";
    assert IntToString(0) == "0";
    assert "format=" + "list" == "format=list";
    assert "columns=" + "" == "columns=";
    assert "include=" + "no" == "include=no";
    assert "compress=" + "no" == "compress=no";
    assert "limit=" + "0" == "limit=0";
    assert "offset=" + "0" == "offset=0";
  }

  /**
   * With every argument but the query at its default, the parameter part of
   * the URL (what `QueryUrl` puts after `BaseUrl`) is
   * `query=Q&format=list&columns=&include=no&compress=no&limit=0&offset=0`,
   * with `Q` the query with its spaces turned into `+`.
   */
  lemma DefaultQueryUrl(query: string)
    ensures Glued(Parameters(DefaultRequest.(query := query))) ==
      "query=" + Plus(query) + "&" + "format=list" + "&" + "columns=" + "&" + "include=no"
      + "&" + "compress=no" + "&" + "limit=0" + "&" + "offset=0"
  {
    var req := DefaultRequest.(query := query);
    var fs := PlusFields(req);
    GluedLayout(req);
    DefaultFields(query);
    JoinSeven(fs[0], fs[1], fs[2], fs[3], fs[4], fs[5], fs[6], '&');
    assert fs == [fs[0], fs[1], fs[2], fs[3], fs[4], fs[5], fs[6]];
  }
}
