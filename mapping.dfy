/**
 * The retry loop of the UniProtKB mapping client (`UniProtKB_Mapping`): up to
 * ten tries, each posting the same five-field form to the mapping service;
 * the first try that fetches a body (and, when a file name is given, writes
 * it) returns that body; a failed try `i` sleeps `5 * i` seconds; after ten
 * failures the function falls off its end and returns `None`.
 *
 * The network and the file system are not modelled: what they do on each try
 * is a parameter (`Attempt`), and the sleeps, requests and the write come back
 * as out-parameters instead of happening.
 */
module Mapping {
  import opened Wrappers

  const MappingUrl := "https://www.uniprot.org/uploadlists/"

  /** The number of tries. */
  const MaxAttempts: nat := 10

  /** The sleep after failed try `i` is `BackoffStep * i` seconds. */
  const BackoffStep: nat := 5

  /** The defaults of the keyword arguments `From`, `To`, `Format` and `Columns`. */
  const DefaultFrom := "ACC"
  const DefaultTo := "ACC"
  const DefaultFormat := "fasta"
  const DefaultColumns := ""

  /**
   * What the outside world does on one try: the decoded body the server sends
   * back (`None` when opening the URL, reading or decoding raises), and whether
   * writing the file would go through.
   */
  datatype Attempt = Attempt(fetched: Option<string>, writable: bool)

  /** One POST to the mapping service: its URL and its form fields. */
  datatype Request = Request(url: string, form: map<string, string>)

  /** The form posted on every try: exactly the five fields, each bound to its argument. */
  function FormParams(query: string, fromDb: string, toDb: string, format: string, columns: string)
    : (form: map<string, string>)
    ensures form.Keys == {"query", "from", "to", "format", "columns"}
    ensures form["query"] == query && form["from"] == fromDb && form["to"] == toDb
    ensures form["format"] == format && form["columns"] == columns
  {
    map["query" := query, "from" := fromDb, "to" := toDb, "format" := format, "columns" := columns]
  }

  /** `if fileName:` — a file is written only for a file name that is present and not empty. */
  predicate WritesFile(fileName: Option<string>) {
    fileName.Some? && fileName.value != ""
  }

  /** A try returns when it fetched a body and, if a file is to be written, the write went through. */
  predicate Succeeds(a: Attempt, fileName: Option<string>) {
    a.fetched.Some? && (WritesFile(fileName) ==> a.writable)
  }

  /** The index of the first successful try, or the number of tries when none succeeds. */
  function FirstSuccess(attempts: seq<Attempt>, fileName: Option<string>): (k: nat)
    ensures k <= |attempts|
    ensures forall i :: 0 <= i < k ==> !Succeeds(attempts[i], fileName)
    ensures k < |attempts| ==> Succeeds(attempts[k], fileName)
    decreases |attempts|
  {
    if attempts == [] then 0
    else if Succeeds(attempts[0], fileName) then 0
    else 1 + FirstSuccess(attempts[1..], fileName)
  }

  /** The sleeps after `n` failed tries: `0, 5, 10, ...` seconds. */
  function Backoff(n: nat): (waits: seq<nat>)
    ensures |waits| == n
    ensures forall i :: 0 <= i < n ==> waits[i] == BackoffStep * i
  {
    if n == 0 then [] else Backoff(n - 1) + [BackoffStep * (n - 1)]
  }

  /** The sum of a sequence of waits. */
  function Total(s: seq<nat>): nat
    decreases |s|
  {
    if s == [] then 0 else Total(s[..|s| - 1]) + s[|s| - 1]
  }

  /** After `n` failed tries the client has slept `5 * n * (n - 1) / 2` seconds. */
  lemma {:induction false} BackoffTotal(n: nat)
    ensures 2 * Total(Backoff(n)) == BackoffStep * n * (n - 1)
  {
    if n > 0 {
      var m := n - 1;
      BackoffTotal(m);
      assert Backoff(n)[..m] == Backoff(m);
      assert Total(Backoff(n)) == Total(Backoff(m)) + BackoffStep * m;
      assert m * (m - 1) + 2 * m == n * m;
    }
  }

  /** When every try fails the client has slept 225 seconds in all, the last sleep being 45. */
  lemma ExhaustedWaitTotal()
    ensures Total(Backoff(MaxAttempts)) == 225
    ensures Backoff(MaxAttempts)[MaxAttempts - 1] == 45
  {
    BackoffTotal(MaxAttempts);
  }

  /**
   * `UniProtKB_Mapping`: `network[i]` is what the outside world does on try `i`.
   * With `k` the first successful try: tries `0..k` each post the same form;
   * each failed try `i` sleeps `5 * i`; the body of try `k` is returned and,
   * when a file name is given, written to that file; with no successful try
   * among the ten, all ten are posted, ten sleeps happen and `None` comes back.
   */
  method UniProtKBMapping(query: string, network: seq<Attempt>, fileName: Option<string> := None,
                          fromDb: string := DefaultFrom, toDb: string := DefaultTo,
                          format: string := DefaultFormat, columns: string := DefaultColumns)
    returns (response: Option<string>, requests: seq<Request>, waits: seq<nat>,
             written: Option<(string, string)>)
    requires |network| >= MaxAttempts
    ensures response.Some? <==> exists i :: 0 <= i < MaxAttempts && Succeeds(network[i], fileName)
    ensures var k := FirstSuccess(network[..MaxAttempts], fileName);
      && |requests| == (if k < MaxAttempts then k + 1 else MaxAttempts)
      && (forall r :: r in requests ==> r == Request(MappingUrl, FormParams(query, fromDb, toDb, format, columns)))
      && waits == Backoff(k)
      && response == (if k < MaxAttempts then network[k].fetched else None)
      && written == (if k < MaxAttempts && WritesFile(fileName)
                     then Some((fileName.value, network[k].fetched.value)) else None)
  {
    ghost var tries := network[..MaxAttempts];
    response, requests, waits, written := None, [], [], None;
    for i := 0 to MaxAttempts
      invariant forall j :: 0 <= j < i ==> !Succeeds(network[j], fileName)
      invariant |requests| == i
      invariant forall r :: r in requests ==> r == Request(MappingUrl, FormParams(query, fromDb, toDb, format, columns))
      invariant waits == Backoff(i)
      invariant response == None && written == None
    {
      var form := FormParams(query, fromDb, toDb, format, columns);
      requests := requests + [Request(MappingUrl, form)];
      var fetched := network[i].fetched;
      if fetched.Some? {
        var body := fetched.value;
        if WritesFile(fileName) {
          if network[i].writable {
            written := Some((fileName.value, body));
            response := Some(body);
            assert tries[i] == network[i];
            return;
          }
        } else {
          response := Some(body);
          assert tries[i] == network[i];
          return;
        }
      }
      waits := waits + [BackoffStep * i];
    }
    assert forall j :: 0 <= j < MaxAttempts ==> tries[j] == network[j];
  }
}
