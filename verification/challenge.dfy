/**
  The `WWW-Authenticate` challenge reading done inside `Client::login`, and
  the token-endpoint URL built from it.

  The reading is a simplified, non-conforming take on the Bearer challenge of
  section 3 of RFC 6750 (auth-params as in section 2.1 of RFC 7235): every
  leading `Bearer ` is removed, the rest is cut at EVERY comma (quotes are not
  respected), and each piece is cut at every `=`. The text before the first
  `=` is the key and the text between the first and second `=` the value,
  with all leading and trailing double quotes removed. Only `realm` and
  `service` items (which must have a value) and `scope` items (whose value is
  ignored) are accepted; any other key fails the whole parse. Later `realm`
  and `service` items overwrite earlier ones; a missing realm leaves it empty.
 */
module Challenge {
  import opened Wrappers
  import opened Text
  import Utf8
  import opened ClientErrors

  /** What the client keeps from a challenge; challenge scopes are dropped */
  datatype AuthChallenge = AuthChallenge(realm: string, service: Option<string>)

  /** What one comma-separated item of the challenge is taken to say */
  datatype Item =
    | RealmItem(realm: string)
    | ServiceItem(service: string)
    | ScopeItem
    | Unsupported

  const BearerPrefix: string := "Bearer "

  /** The key of an item: the text before its first `=` */
  function Key(item: string): string {
    Split(item, '=')[0]
  }

  /** The raw value of an item: the text between its first and second `=`,
      or None when the item has no `=` */
  function RawValue(item: string): Option<string> {
    var kv := Split(item, '=');
    if |kv| > 1 then Some(kv[1]) else None
  }

  function Unquote(v: string): string {
    TrimMatches(v, '"')
  }

  /** The match on `(kv.get(0), kv.get(1))` for one item: a realm or service
      item is one that starts with `realm=` or `service=`, a scope item is
      `scope` alone or starts with `scope=`, and its value has no quote at
      either end (ClassifyValue says what the value is) */
  function Classify(item: string): (r: Item)
    ensures r.RealmItem? <==> StartsWith(item, "realm=")
    ensures r.ServiceItem? <==> StartsWith(item, "service=")
    ensures r.ScopeItem? <==> item == "scope" || StartsWith(item, "scope=")
    ensures r.RealmItem? ==> |r.realm| == 0 || (r.realm[0] != '"' && r.realm[|r.realm| - 1] != '"')
    ensures r.ServiceItem? ==> |r.service| == 0 || (r.service[0] != '"' && r.service[|r.service| - 1] != '"')
  {
    AcceptedKeys(item);
    var k := Key(item);
    var v := RawValue(item);
    if k == "realm" && v.Some? then RealmItem(Unquote(v.value))
    else if k == "service" && v.Some? then ServiceItem(Unquote(v.value))
    else if k == "scope" then ScopeItem
    else Unsupported
  }

  /** The value of a realm or service item is the text after the key's `=`
      up to the next `=`, with the double quotes at both ends taken off */
  lemma ClassifyValue(item: string)
    ensures Classify(item).RealmItem? ==>
              Padded(Before(item[6..], '='), Classify(item).realm, '"')
    ensures Classify(item).ServiceItem? ==>
              Padded(Before(item[8..], '='), Classify(item).service, '"')
  {
    var r := Classify(item);
    if r.RealmItem? {
      ValueShape("realm", "realm=", item);
      assert r.realm == Unquote(RawValue(item).value);
    } else if r.ServiceItem? {
      ValueShape("service", "service=", item);
      assert r.service == Unquote(RawValue(item).value);
    }
  }

  /** The value of an item `k=tail` is `tail` up to its first `=`, quotes at
      both ends aside */
  lemma ValueShape(k: string, p: string, item: string)
    requires '=' !in k && p == k + "="
    requires StartsWith(item, p)
    ensures RawValue(item).Some?
    ensures Padded(Before(item[|p|..], '='), Unquote(RawValue(item).value), '"')
  {
    var tail := item[|p|..];
    assert item == k + "=" + tail;
    KeyAndTail(k, tail);
    TrimMatchesShape(Before(tail, '='), '"');
  }

  /** The three keys the reading accepts, told apart by how the item starts */
  lemma AcceptedKeys(item: string)
    ensures (Key(item) == "realm" && RawValue(item).Some?) <==> StartsWith(item, "realm=")
    ensures (Key(item) == "service" && RawValue(item).Some?) <==> StartsWith(item, "service=")
    ensures Key(item) == "scope" <==> item == "scope" || StartsWith(item, "scope=")
  {
    KeyIs(item, "realm");
    assert "realm" + "=" == "realm=";
    KeyIs(item, "service");
    assert "service" + "=" == "service=";
    KeyIs(item, "scope");
    assert "scope" + "=" == "scope=";
  }

  /** An item has key `k` and a value exactly when it starts with `k=`, and
      key `k` and no value exactly when it is `k` */
  lemma KeyIs(item: string, k: string)
    requires '=' !in k
    ensures RawValue(item).Some? <==> '=' in item
    ensures (Key(item) == k && '=' in item) <==> StartsWith(item, k + "=")
    ensures (Key(item) == k && '=' !in item) <==> item == k
  {
    assert Key(item) == Before(item, '=');
    if StartsWith(item, k + "=") {
      var rest := item[|k| + 1..];
      assert item == k + ['='] + rest;
      assert item[|k|] == '=';
      SplitCons(k, '=', rest);
    }
  }

  /** The comma-separated items after the leading `Bearer ` prefixes */
  function Items(text: string): (items: seq<string>)
    ensures |items| >= 1
    ensures forall i :: 0 <= i < |items| ==> ',' !in items[i]
    ensures Join(items, ',') == TrimStartMatches(text, BearerPrefix)
    ensures !StartsWith(Join(items, ','), BearerPrefix)
  {
    Split(TrimStartMatches(text, BearerPrefix), ',')
  }

  /** What each item says, item by item */
  function Classified(items: seq<string>): (ks: seq<Item>)
    ensures |ks| == |items|
    ensures forall i :: 0 <= i < |items| ==> ks[i] == Classify(items[i])
  {
    seq(|items|, i requires 0 <= i < |items| => Classify(items[i]))
  }

  /** The loop over the items, with the realm and service found so far;
      it stops at the first unsupported item */
  function Fold(ks: seq<Item>, acc: AuthChallenge): (r: Result<AuthChallenge, Error>)
    ensures r.Failure? ==> r.error == UnsupportedKey
    ensures r.Success? <==> AllAccepted(ks)
    decreases |ks|
  {
    if |ks| == 0 then Success(acc)
    else
      assert forall j :: 1 <= j < |ks| ==> ks[j] == ks[1..][j - 1];
      match ks[0]
      case RealmItem(v) => Fold(ks[1..], acc.(realm := v))
      case ServiceItem(v) => Fold(ks[1..], acc.(service := Some(v)))
      case ScopeItem => Fold(ks[1..], acc)
      case Unsupported => Failure(UnsupportedKey)
  }

  /** Reading of the challenge text; the realm starts out empty. It fails
      exactly when some item after the `Bearer ` prefixes has an unsupported
      key (or is a realm or service item without `=`); otherwise the realm is
      the last realm value, or empty when there is none, and the service is
      the last service value, if any */
  function ParseText(text: string): (r: Result<AuthChallenge, Error>)
    ensures r.Success? <==> AllAccepted(Classified(Items(text)))
    ensures r.Failure? ==> r.error == UnsupportedKey
    ensures r.Success? ==>
      var items := Classified(Items(text));
      && (if NoRealm(items) then r.value.realm == "" else LastRealmIs(items, r.value.realm))
      && (if NoService(items) then r.value.service == None
          else r.value.service.Some? && LastServiceIs(items, r.value.service.value))
  {
    var ks := Classified(Items(text));
    var init := AuthChallenge("", None);
    if Fold(ks, init).Success? then
      FoldRealm(ks, init);
      FoldService(ks, init);
      Fold(ks, init)
    else Fold(ks, init)
  }

  /** Reading of the raw header bytes, which must first be UTF-8 */
  function Parse(raw: Utf8.Bytes): (r: Result<AuthChallenge, Error>)
    ensures r.Failure? ==> r.error == NotUtf8 || r.error == UnsupportedKey
    ensures r == Failure(NotUtf8) <==> !Utf8.IsValid(raw)
    ensures Utf8.IsValid(raw) ==> r == ParseText(Utf8.Decode(raw).value)
  {
    match Utf8.Decode(raw)
    case None => Failure(NotUtf8)
    case Some(text) => ParseText(text)
  }

  /* ---------------------------------------------------------------------
     What one item says
     --------------------------------------------------------------------- */

  /** An item `k=tail` with no `=` in `k` has key `k`, and its value is
      `tail` up to its first `=` */
  lemma KeyAndTail(k: string, tail: string)
    requires '=' !in k
    ensures Key(k + "=" + tail) == k
    ensures RawValue(k + "=" + tail) == Some(Before(tail, '='))
  {
    assert k + "=" + tail == k + ['='] + tail;
    SplitCons(k, '=', tail);
  }

  /** The text before the first `=` of `v` followed by nothing or by `=…` is `v` */
  lemma BeforeEquals(v: string, rest: string)
    requires '=' !in v
    requires |rest| == 0 || rest[0] == '='
    ensures Before(v + rest, '=') == v
  {
    if |rest| == 0 {
      assert v + rest == v;
    } else {
      assert v + rest == v + ['='] + rest[1..];
      SplitCons(v, '=', rest[1..]);
    }
  }

  /** An item `k=v…` where neither `k` nor `v` holds `=` has key `k` and value `v`,
      whatever follows a second `=` */
  lemma ItemFields(k: string, v: string, rest: string)
    requires '=' !in k && '=' !in v
    requires |rest| == 0 || rest[0] == '='
    ensures Key(k + "=" + v + rest) == k
    ensures RawValue(k + "=" + v + rest) == Some(v)
  {
    assert k + "=" + v + rest == k + "=" + (v + rest);
    KeyAndTail(k, v + rest);
    BeforeEquals(v, rest);
  }

  /** An item without `=` is all key and has no value */
  lemma ItemWithoutValue(item: string)
    requires '=' !in item
    ensures Key(item) == item && RawValue(item) == None
  {
  }

  /* ---------------------------------------------------------------------
     The reading against an independent description
     --------------------------------------------------------------------- */

  ghost predicate AllAccepted(ks: seq<Item>) {
    forall i :: 0 <= i < |ks| ==> !ks[i].Unsupported?
  }

  ghost predicate NoRealm(ks: seq<Item>) {
    forall i :: 0 <= i < |ks| ==> !ks[i].RealmItem?
  }

  ghost predicate NoService(ks: seq<Item>) {
    forall i :: 0 <= i < |ks| ==> !ks[i].ServiceItem?
  }

  /** `v` is the value of the last realm item */
  ghost predicate LastRealmIs(ks: seq<Item>, v: string) {
    exists i :: 0 <= i < |ks| && ks[i] == RealmItem(v)
      && forall j :: i < j < |ks| ==> !ks[j].RealmItem?
  }

  /** `v` is the value of the last service item */
  ghost predicate LastServiceIs(ks: seq<Item>, v: string) {
    exists i :: 0 <= i < |ks| && ks[i] == ServiceItem(v)
      && forall j :: i < j < |ks| ==> !ks[j].ServiceItem?
  }

  /** The state after one accepted item */
  function Step(k: Item, acc: AuthChallenge): AuthChallenge {
    match k
    case RealmItem(v) => acc.(realm := v)
    case ServiceItem(v) => acc.(service := Some(v))
    case _ => acc
  }

  lemma FoldUnfold(ks: seq<Item>, acc: AuthChallenge)
    requires |ks| > 0 && !ks[0].Unsupported?
    ensures Fold(ks, acc) == Fold(ks[1..], Step(ks[0], acc))
  {
  }

  /** On success the realm is the last realm item's, or the starting one when there is none */
  lemma {:induction false} FoldRealm(ks: seq<Item>, acc: AuthChallenge)
    requires Fold(ks, acc).Success?
    ensures NoRealm(ks) ==> Fold(ks, acc).value.realm == acc.realm
    ensures !NoRealm(ks) ==> LastRealmIs(ks, Fold(ks, acc).value.realm)
    decreases |ks|
  {
    if |ks| > 0 {
      var tail := ks[1..];
      var r := Fold(ks, acc).value;
      FoldUnfold(ks, acc);
      FoldRealm(tail, Step(ks[0], acc));
      if !NoRealm(tail) {
        var i :| 0 <= i < |tail| && tail[i] == RealmItem(r.realm)
          && forall j :: i < j < |tail| ==> !tail[j].RealmItem?;
        assert ks[i + 1] == RealmItem(r.realm);
        assert forall j :: i + 1 < j < |ks| ==> ks[j] == tail[j - 1];
        assert LastRealmIs(ks, r.realm);
      } else {
        assert forall j :: 1 <= j < |ks| ==> ks[j] == tail[j - 1];
        if ks[0].RealmItem? {
          assert LastRealmIs(ks, r.realm);
        } else {
          assert NoRealm(ks);
        }
      }
    }
  }

  /** On success the service is the last service item's, or the starting one when there is none */
  lemma {:induction false} FoldService(ks: seq<Item>, acc: AuthChallenge)
    requires Fold(ks, acc).Success?
    ensures NoService(ks) ==> Fold(ks, acc).value.service == acc.service
    ensures !NoService(ks) ==>
              Fold(ks, acc).value.service.Some? && LastServiceIs(ks, Fold(ks, acc).value.service.value)
    decreases |ks|
  {
    if |ks| > 0 {
      var tail := ks[1..];
      var r := Fold(ks, acc).value;
      FoldUnfold(ks, acc);
      FoldService(tail, Step(ks[0], acc));
      if !NoService(tail) {
        var i :| 0 <= i < |tail| && tail[i] == ServiceItem(r.service.value)
          && forall j :: i < j < |tail| ==> !tail[j].ServiceItem?;
        assert ks[i + 1] == ServiceItem(r.service.value);
        assert forall j :: i + 1 < j < |ks| ==> ks[j] == tail[j - 1];
        assert LastServiceIs(ks, r.service.value);
      } else {
        assert forall j :: 1 <= j < |ks| ==> ks[j] == tail[j - 1];
        if ks[0].ServiceItem? {
          assert LastServiceIs(ks, r.service.value);
        } else {
          assert NoService(ks);
        }
      }
    }
  }

  /* ---------------------------------------------------------------------
     The token endpoint
     --------------------------------------------------------------------- */

  function ServiceQuery(service: Option<string>): string {
    match service
    case Some(sv) => "?service=" + sv
    case None => ""
  }

  /** One `&scope=<sc>` per scope, in the order given */
  function ScopeQuery(scopes: seq<string>): (q: string)
    ensures |q| > 0 <==> |scopes| > 0
    ensures |scopes| > 0 ==> q[0] == '&'
    decreases |scopes|
  {
    if |scopes| == 0 then ""
    else ScopeQuery(scopes[..|scopes| - 1]) + "&scope=" + scopes[|scopes| - 1]
  }

  /** The token endpoint: the realm, `?service=<sv>` if a service was read,
      then `&scope=<sc>` for every scope the caller asked for */
  function TokenEndpoint(ch: AuthChallenge, scopes: seq<string>): (url: string)
    ensures StartsWith(url, ch.realm)
    ensures ch.service.Some? ==> |url| > |ch.realm| && url[|ch.realm|] == '?'
    ensures ch.service.None? && |scopes| > 0 ==> |url| > |ch.realm| && url[|ch.realm|] == '&'
    ensures ch.service.None? && |scopes| == 0 ==> url == ch.realm
  {
    var url := ch.realm + ServiceQuery(ch.service) + ScopeQuery(scopes);
    assert url[..|ch.realm|] == ch.realm;
    url
  }

  /** The string building as the source does it: append the service query,
      then append one scope query per caller scope */
  method BuildTokenEndpoint(ch: AuthChallenge, scopes: seq<string>) returns (url: string)
    ensures url == TokenEndpoint(ch, scopes)
  {
    url := ch.realm;
    if ch.service.Some? {
      url := url + "?service=" + ch.service.value;
    }
    var i := 0;
    while i < |scopes|
      invariant 0 <= i <= |scopes|
      invariant url == ch.realm + ServiceQuery(ch.service) + ScopeQuery(scopes[..i])
    {
      assert scopes[..i + 1][..i] == scopes[..i];
      url := url + "&scope=" + scopes[i];
      i := i + 1;
    }
    assert scopes[..i] == scopes;
  }

  /** The scope parameters as they appear between the `&` separators */
  function ScopeParams(scopes: seq<string>): (ps: seq<string>)
    ensures |ps| == |scopes|
    ensures forall i :: 0 <= i < |scopes| ==> ps[i] == "scope=" + scopes[i]
  {
    seq(|scopes|, i requires 0 <= i < |scopes| => "scope=" + scopes[i])
  }

  lemma ScopeParamsSnoc(scopes: seq<string>)
    requires |scopes| > 0
    ensures [""] + ScopeParams(scopes)
            == [""] + ScopeParams(scopes[..|scopes| - 1]) + ["scope=" + scopes[|scopes| - 1]]
  {
    var init := scopes[..|scopes| - 1];
    assert ScopeParams(scopes) == ScopeParams(init) + ["scope=" + scopes[|scopes| - 1]];
  }

  /** The scope query is the scope parameters each preceded by `&` */
  lemma {:induction false} ScopeQueryIsJoin(scopes: seq<string>)
    ensures ScopeQuery(scopes) == Join([""] + ScopeParams(scopes), '&')
    decreases |scopes|
  {
    if |scopes| > 0 {
      var init := scopes[..|scopes| - 1];
      var last := scopes[|scopes| - 1];
      ScopeQueryIsJoin(init);
      JoinSnoc([""] + ScopeParams(init), "scope=" + last, '&');
      ScopeParamsSnoc(scopes);
    }
  }

  lemma {:induction false} JoinSnoc(parts: seq<string>, x: string, d: char)
    requires |parts| >= 1
    ensures Join(parts + [x], d) == Join(parts, d) + [d] + x
    decreases |parts|
  {
    if |parts| == 1 {
      assert Join(parts + [x], d) == parts[0] + [d] + Join([x], d);
    } else {
      assert (parts + [x])[1..] == parts[1..] + [x];
      JoinSnoc(parts[1..], x, d);
    }
  }

  lemma ScopeParamFree(sc: string)
    requires '&' !in sc
    ensures '&' !in "scope=" + sc
  {
    var p := "scope=";
    assert forall k :: 0 <= k < |p| ==> p[k] != '&';
    assert forall k :: 0 <= k < |p + sc| ==> (p + sc)[k] != '&';
  }

  /** Cutting the scope query at `&` gives back every scope, in the caller's
      order, as long as no scope itself holds `&` */
  lemma ScopeQueryRecoversScopes(scopes: seq<string>)
    requires forall i :: 0 <= i < |scopes| ==> '&' !in scopes[i]
    ensures Split(ScopeQuery(scopes), '&') == [""] + ScopeParams(scopes)
  {
    ScopeQueryIsJoin(scopes);
    var parts := [""] + ScopeParams(scopes);
    forall i | 0 <= i < |parts|
      ensures '&' !in parts[i]
    {
      if i > 0 {
        assert parts[i] == "scope=" + scopes[i - 1];
        ScopeParamFree(scopes[i - 1]);
      }
    }
    SplitJoin(parts, '&');
  }

  /** Cutting the whole token endpoint at `&` gives back the realm with the
      service query, then every scope parameter in the caller's order, as
      long as neither the realm, the service nor any scope holds `&` */
  lemma TokenEndpointRecovers(ch: AuthChallenge, scopes: seq<string>)
    requires '&' !in ch.realm
    requires ch.service.Some? ==> '&' !in ch.service.value
    requires forall i :: 0 <= i < |scopes| ==> '&' !in scopes[i]
    ensures Split(TokenEndpoint(ch, scopes), '&')
            == [ch.realm + (if ch.service.Some? then "?service=" + ch.service.value else "")]
               + ScopeParams(scopes)
  {
    var head := ch.realm + ServiceQuery(ch.service);
    ServiceQueryFree(ch.service);
    assert '&' !in head by {
      assert forall k :: 0 <= k < |head| ==>
        head[k] == if k < |ch.realm| then ch.realm[k] else ServiceQuery(ch.service)[k - |ch.realm|];
    }
    ScopeQueryIsJoin(scopes);
    var parts := [""] + ScopeParams(scopes);
    JoinPrepend(head, parts, '&');
    assert head + parts[0] == head;
    var all := [head] + ScopeParams(scopes);
    assert [head + parts[0]] + parts[1..] == all;
    forall i | 0 <= i < |all|
      ensures '&' !in all[i]
    {
      if i > 0 {
        ScopeParamFree(scopes[i - 1]);
      }
    }
    SplitJoin(all, '&');
  }

  lemma ServiceQueryFree(service: Option<string>)
    requires service.Some? ==> '&' !in service.value
    ensures '&' !in ServiceQuery(service)
  {
    if service.Some? {
      var p := "?service=";
      assert forall k :: 0 <= k < |p| ==> p[k] != '&';
      assert forall k :: 0 <= k < |p + service.value| ==> (p + service.value)[k] != '&';
    }
  }

  /* ---------------------------------------------------------------------
     Reading back a well-formed challenge
     --------------------------------------------------------------------- */

  /** One `key="value"` item */
  function Quoted(k: string, v: string): string {
    k + "=\"" + v + "\""
  }

  /** The items of a challenge as a registry writes it: the realm, the
      service if any, then one item per scope */
  function RenderedItems(realm: string, service: Option<string>, scopes: seq<string>): (items: seq<string>)
    ensures |items| >= 1
  {
    [Quoted("realm", realm)]
    + (match service case Some(sv) => [Quoted("service", sv)] case None => [])
    + seq(|scopes|, i requires 0 <= i < |scopes| => Quoted("scope", scopes[i]))
  }

  /** A challenge header value as a registry writes it */
  function RenderChallenge(realm: string, service: Option<string>, scopes: seq<string>): string {
    BearerPrefix + Join(RenderedItems(realm, service, scopes), ',')
  }

  /** A realm or service value that survives the reading unchanged */
  predicate Plain(v: string) {
    ',' !in v && '=' !in v && '"' !in v
  }

  /** The items of `Bearer ` followed by comma-joined pieces are those pieces */
  lemma ItemsOf(parts: seq<string>)
    requires |parts| >= 1
    requires forall i :: 0 <= i < |parts| ==> ',' !in parts[i]
    requires |parts[0]| > 0 && parts[0][0] != 'B'
    ensures Items(BearerPrefix + Join(parts, ',')) == parts
  {
    var rest := Join(parts, ',');
    assert rest[0] == parts[0][0];
    assert Repeat(BearerPrefix, 1) + rest == BearerPrefix + rest;
    TrimStartMatchesRepeat(BearerPrefix, 1, rest);
    SplitJoin(parts, ',');
  }

  lemma ClassifyQuoted(k: string, v: string)
    requires '=' !in k && Plain(v)
    ensures Key(Quoted(k, v)) == k
    ensures RawValue(Quoted(k, v)).Some?
    ensures Unquote(RawValue(Quoted(k, v)).value) == v
  {
    var q := "\"" + v + "\"";
    assert Quoted(k, v) == k + "=" + q + "";
    ItemFields(k, q, "");
    assert q == Run('"', 1) + v + Run('"', 1);
    TrimMatchesUnwraps('"', 1, v, 1);
  }

  lemma ClassifyScope(v: string)
    ensures Classify(Quoted("scope", v)) == ScopeItem
  {
    assert Quoted("scope", v) == "scope" + ['='] + ("\"" + v + "\"");
    SplitCons("scope", '=', "\"" + v + "\"");
  }

  /** Scope items leave the state alone */
  lemma {:induction false} FoldScopes(ks: seq<Item>, acc: AuthChallenge)
    requires forall i :: 0 <= i < |ks| ==> ks[i] == ScopeItem
    ensures Fold(ks, acc) == Success(acc)
    decreases |ks|
  {
    if |ks| > 0 {
      FoldScopes(ks[1..], acc);
    }
  }

  /** The first rendered items are the realm item and the service item, if any */
  lemma RenderedHead(realm: string, service: Option<string>, scopes: seq<string>)
    ensures RenderedItems(realm, service, scopes)[0] == Quoted("realm", realm)
    ensures service.Some? ==> RenderedItems(realm, service, scopes)[1] == Quoted("service", service.value)
  {
  }

  lemma ClassifyRealm(v: string)
    requires Plain(v)
    ensures Classify(Quoted("realm", v)) == RealmItem(v)
  {
    ClassifyQuoted("realm", v);
  }

  lemma ClassifyService(v: string)
    requires Plain(v)
    ensures Classify(Quoted("service", v)) == ServiceItem(v)
  {
    ClassifyQuoted("service", v);
  }

  /** What the rendered realm and service items say */
  lemma ClassifyRenderedHead(realm: string, service: Option<string>, scopes: seq<string>)
    requires Plain(realm)
    requires service.Some? ==> Plain(service.value)
    ensures Classify(RenderedItems(realm, service, scopes)[0]) == RealmItem(realm)
    ensures service.Some? ==> Classify(RenderedItems(realm, service, scopes)[1]) == ServiceItem(service.value)
  {
    RenderedHead(realm, service, scopes);
    ClassifyRealm(realm);
    if service.Some? {
      ClassifyService(service.value);
    }
  }

  /** What the rendered scope items say */
  lemma ClassifyRenderedScopes(realm: string, service: Option<string>, scopes: seq<string>)
    ensures var parts := RenderedItems(realm, service, scopes);
      var n := if service.Some? then 2 else 1;
      |parts| == n + |scopes| && forall i :: n <= i < |parts| ==> Classify(parts[i]) == ScopeItem
  {
    var parts := RenderedItems(realm, service, scopes);
    var n := if service.Some? then 2 else 1;
    forall i | n <= i < |parts|
      ensures Classify(parts[i]) == ScopeItem
    {
      assert parts[i] == Quoted("scope", scopes[i - n]);
      ClassifyScope(scopes[i - n]);
    }
  }

  /** The loop over a realm item, an optional service item and scope items */
  lemma FoldRendered(ks: seq<Item>, realm: string, service: Option<string>)
    requires |ks| >= 1 && ks[0] == RealmItem(realm)
    requires service.Some? ==> |ks| >= 2 && ks[1] == ServiceItem(service.value)
    requires forall i :: (if service.Some? then 2 else 1) <= i < |ks| ==> ks[i] == ScopeItem
    ensures Fold(ks, AuthChallenge("", None)) == Success(AuthChallenge(realm, service))
  {
    var acc := AuthChallenge(realm, service);
    if service.Some? {
      FoldScopes(ks[2..], acc);
      assert ks[1..][1..] == ks[2..];
    } else {
      FoldScopes(ks[1..], acc);
    }
  }

  /** The rendered items are exactly what the reading cuts the header into */
  lemma ItemsOfRendered(realm: string, service: Option<string>, scopes: seq<string>)
    requires Plain(realm)
    requires service.Some? ==> Plain(service.value)
    requires forall i :: 0 <= i < |scopes| ==> ',' !in scopes[i]
    ensures Items(RenderChallenge(realm, service, scopes)) == RenderedItems(realm, service, scopes)
  {
    var parts := RenderedItems(realm, service, scopes);
    var n := if service.Some? then 2 else 1;
    forall i | 0 <= i < |parts|
      ensures ',' !in parts[i]
    {
      if i >= n {
        assert parts[i] == Quoted("scope", scopes[i - n]);
      }
    }
    ItemsOf(parts);
  }

  /** For all challenges whose realm and service hold no `,`, `=` or `"` and
      whose scopes hold no `,`, the reading recovers the realm and the service
      exactly (the scopes of the challenge are dropped) */
  lemma RenderRoundTrip(realm: string, service: Option<string>, scopes: seq<string>)
    requires Plain(realm)
    requires service.Some? ==> Plain(service.value)
    requires forall i :: 0 <= i < |scopes| ==> ',' !in scopes[i]
    ensures ParseText(RenderChallenge(realm, service, scopes)) == Success(AuthChallenge(realm, service))
  {
    ItemsOfRendered(realm, service, scopes);
    ClassifyRenderedHead(realm, service, scopes);
    ClassifyRenderedScopes(realm, service, scopes);
    FoldRendered(Classified(RenderedItems(realm, service, scopes)), realm, service);
  }

  /** One unsupported item fails the whole reading */
  lemma RejectedBy(text: string, i: nat)
    requires i < |Items(text)| && Classify(Items(text)[i]).Unsupported?
    ensures ParseText(text) == Failure(UnsupportedKey)
  {
    var ks := Classified(Items(text));
    assert ks[i].Unsupported?;
  }

  /* ---------------------------------------------------------------------
     Concrete behaviour at the edges
     --------------------------------------------------------------------- */

  /** The `Bearer ` prefix is optional and may be repeated: removing one
      changes nothing */
  lemma BearerPrefixOptional(text: string)
    ensures ParseText(BearerPrefix + text) == ParseText(text)
  {
    assert (BearerPrefix + text)[..|BearerPrefix|] == BearerPrefix;
    assert (BearerPrefix + text)[|BearerPrefix|..] == text;
  }

  /** An item whose key starts with a space is not one the reading accepts */
  lemma SpacedKeyUnsupported(k: string, v: string)
    requires '=' !in k && '=' !in v
    ensures Classify(" " + k + "=" + v) == Unsupported
  {
    ItemFields(" " + k, v, "");
    assert " " + k + "=" + v + "" == " " + k + "=" + v;
    assert Key(" " + k + "=" + v)[0] == ' ';
  }

  /** An item without `=` that ends in a quote is not one the reading accepts */
  lemma QuoteEndedUnsupported(item: string)
    requires '=' !in item && |item| > 0 && item[|item| - 1] == '"'
    ensures Classify(item) == Unsupported
  {
    ItemWithoutValue(item);
  }

  /** The items of a challenge with only a realm and one scope */
  lemma RenderedRealmScope(realm: string, sc: string)
    ensures RenderedItems(realm, None, [sc]) == [Quoted("realm", realm), Quoted("scope", sc)]
  {
    var tail := seq(1, i requires 0 <= i < 1 => Quoted("scope", [sc][i]));
    assert tail == [Quoted("scope", sc)];
  }

  /** A quoted value holding a comma, cut at that comma */
  lemma QuotedAtComma(k: string, a: string, b: string)
    ensures Quoted(k, a + "," + b) == (k + "=\"" + a) + [','] + (b + "\"")
  {
  }

  /** A challenge with one quoted scope holding a comma is cut into three
      items: the realm, the scope up to the comma, and the rest */
  lemma CommaScopeItems(realm: string, a: string, b: string)
    requires Plain(realm) && ',' !in a && ',' !in b
    ensures Items(RenderChallenge(realm, None, [a + "," + b]))
            == [Quoted("realm", realm), "scope" + "=\"" + a, b + "\""]
  {
    var head := Quoted("realm", realm);
    var mid := "scope" + "=\"" + a;
    var last := b + "\"";
    RenderedRealmScope(realm, a + "," + b);
    JoinPair(head, Quoted("scope", a + "," + b), ',');
    QuotedAtComma("scope", a, b);
    JoinTriple(head, mid, last, ',');
    assert RenderChallenge(realm, None, [a + "," + b]) == BearerPrefix + Join([head, mid, last], ',');
    ItemsOf([head, mid, last]);
  }

  /** A quoted scope holding a comma is cut at the comma, and the piece after
      it (`b"`, which has no `=`) is rejected as an unsupported key: so the
      common `scope="repository:x:pull,push"` fails the whole login */
  lemma QuotedCommaRejected(realm: string, a: string, b: string)
    requires Plain(realm) && ',' !in a && ',' !in b && '=' !in b
    ensures ParseText(RenderChallenge(realm, None, [a + "," + b])) == Failure(UnsupportedKey)
  {
    CommaScopeItems(realm, a, b);
    QuoteEndedUnsupported(b + "\"");
    RejectedBy(RenderChallenge(realm, None, [a + "," + b]), 2);
  }

  /** The realm item followed by `, ` and the service item is cut into the
      realm item and the service item with a leading space */
  lemma SpacedItems(realm: string, sv: string)
    requires Plain(realm) && Plain(sv)
    ensures Items(BearerPrefix + Quoted("realm", realm) + ", " + Quoted("service", sv))
            == [Quoted("realm", realm), " " + "service" + "=" + ("\"" + sv + "\"")]
  {
    var second := " " + "service" + "=" + ("\"" + sv + "\"");
    assert " " + Quoted("service", sv) == second;
    JoinPair(Quoted("realm", realm), second, ',');
    assert BearerPrefix + Quoted("realm", realm) + ", " + Quoted("service", sv)
           == BearerPrefix + Join([Quoted("realm", realm), second], ',');
    ItemsOf([Quoted("realm", realm), second]);
  }

  /** Keys are not trimmed: a space after a comma makes the next key unsupported */
  lemma SpaceAfterCommaRejected(realm: string, sv: string)
    requires Plain(realm) && Plain(sv)
    ensures ParseText(BearerPrefix + Quoted("realm", realm) + ", " + Quoted("service", sv))
              == Failure(UnsupportedKey)
  {
    var text := BearerPrefix + Quoted("realm", realm) + ", " + Quoted("service", sv);
    SpacedItems(realm, sv);
    SpacedKeyUnsupported("service", "\"" + sv + "\"");
    RejectedBy(text, 1);
  }

  /** A challenge without a realm reads as the empty realm */
  lemma MissingRealmIsEmpty(sv: string)
    requires Plain(sv)
    ensures ParseText(BearerPrefix + Quoted("service", sv)) == Success(AuthChallenge("", Some(sv)))
  {
    var parts := [Quoted("service", sv)];
    SingleItem(Quoted("service", sv));
    ClassifyQuoted("service", sv);
    var ks := Classified(parts);
    assert ks == [ServiceItem(sv)];
    assert Fold(ks, AuthChallenge("", None)) == Fold([], AuthChallenge("", Some(sv)));
  }

  lemma SingleItem(item: string)
    requires ',' !in item && |item| > 0 && item[0] != 'B'
    ensures Items(BearerPrefix + item) == [item]
  {
    assert Join([item], ',') == item;
    ItemsOf([item]);
  }
}
