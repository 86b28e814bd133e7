/**
  The slice of hyper's HTTP model that the registry client touches: an
  already-received response (status, header lines, body bytes), the
  outcome of sending a request (a response or a transport failure), and an
  outgoing request with the two typed headers the client ever sets,
  `Authorization` and `User-Agent`.

  Incoming headers are kept as the lines that arrived, in order. hyper
  groups the lines of one header name into a `Raw` value; `Lines` is that
  grouping, `GetRaw` is `Headers::get_raw` (absent when no line has the
  name), `One` is `Raw::one`, and `RawIs` is the comparison `raw == "text"`.
 */
module Http {
  import opened Wrappers
  import opened Utf8

  datatype Field = Field(name: string, value: Bytes)

  datatype Response = Response(status: nat, headers: seq<Field>, body: Bytes)

  /** What sending one request yields: a response, or a failure of the connection */
  datatype Reply = Received(response: Response) | TransportFailed

  datatype Method = Get

  datatype Credential =
    | Bearer(token: string)
    | Basic(username: string, password: string)

  datatype Request = Request(
    verb: Method,
    url: string,
    authorization: Option<Credential>,
    userAgent: Option<string>)

  /* ---------------------------------------------------------------------
     Header names compare without regard to ASCII case
     --------------------------------------------------------------------- */

  function LowerAscii(ch: char): char {
    if 'A' <= ch <= 'Z' then (ch as int + 32) as char else ch
  }

  predicate SameName(a: string, b: string) {
    |a| == |b| && forall i :: 0 <= i < |a| ==> LowerAscii(a[i]) == LowerAscii(b[i])
  }

  /** The values of every line named `name`, in the order they arrived */
  function Lines(hs: seq<Field>, name: string): (r: seq<Bytes>)
    ensures |r| <= |hs|
    ensures |r| == 0 <==> forall i :: 0 <= i < |hs| ==> !SameName(hs[i].name, name)
    ensures forall v :: v in r ==> exists i :: 0 <= i < |hs| && SameName(hs[i].name, name) && hs[i].value == v
    decreases |hs|
  {
    if |hs| == 0 then []
    else
      var rest := Lines(hs[1..], name);
      assert forall i :: 1 <= i < |hs| ==> hs[i] == hs[1..][i - 1];
      if SameName(hs[0].name, name) then [hs[0].value] + rest else rest
  }

  /** Lines distributes over concatenation of header lists, so the grouping
      keeps the arrival order of a header's lines */
  lemma {:induction false} LinesAppend(hs1: seq<Field>, hs2: seq<Field>, name: string)
    ensures Lines(hs1 + hs2, name) == Lines(hs1, name) + Lines(hs2, name)
    decreases |hs1|
  {
    if |hs1| == 0 {
      assert hs1 + hs2 == hs2;
    } else {
      assert (hs1 + hs2)[0] == hs1[0];
      assert (hs1 + hs2)[1..] == hs1[1..] + hs2;
      LinesAppend(hs1[1..], hs2, name);
      if SameName(hs1[0].name, name) {
        assert Lines(hs1 + hs2, name) == [hs1[0].value] + Lines(hs1[1..] + hs2, name);
      } else {
        assert Lines(hs1 + hs2, name) == Lines(hs1[1..] + hs2, name);
      }
    }
  }

  /** A line with a different name does not show up under `name` */
  lemma LinesOther(hs: seq<Field>, f: Field, name: string)
    requires !SameName(f.name, name)
    ensures Lines(hs + [f], name) == Lines(hs, name)
  {
    LinesAppend(hs, [f], name);
    assert Lines([f], name) == [];
  }

  /** hyper's `Headers::get_raw`: present exactly when at least one line has the name */
  function GetRaw(hs: seq<Field>, name: string): (r: Option<seq<Bytes>>)
    ensures r.None? <==> forall i :: 0 <= i < |hs| ==> !SameName(hs[i].name, name)
    ensures r.Some? ==> r.value == Lines(hs, name) && |r.value| >= 1
  {
    var ls := Lines(hs, name);
    if |ls| == 0 then None else Some(ls)
  }

  /** hyper's `Raw::one`: the value when the header arrived as exactly one line */
  function One(raw: seq<Bytes>): (r: Option<Bytes>)
    ensures r.Some? <==> |raw| == 1
    ensures r.Some? ==> r.value == raw[0]
  {
    if |raw| == 1 then Some(raw[0]) else None
  }

  /** hyper's `raw == text`: a single line whose bytes are the UTF-8 of `text` */
  predicate RawIs(raw: seq<Bytes>, text: string) {
    |raw| == 1 && raw[0] == Encode(text)
  }

  /** The header arrived as exactly one line, and that line is `text` */
  lemma RawIsSingleLine(hs: seq<Field>, name: string, text: string)
    ensures (GetRaw(hs, name).Some? && RawIs(GetRaw(hs, name).value, text))
            <==> Lines(hs, name) == [Encode(text)]
  {
  }
}
