/** Outbound commands (src/message.rs): the `Method` names and the JSON text
    `Message::serialize` produces, with a decoder for that text as its inverse. */
module Messages {
  import opened Common
  import JsonText
  import KeyOrder

  /** The commands the crate knows; the names are the Rust variant names. */
  datatype Method = Browser_getVersion | Page_navigate

  /** `HashMap<String, String>` of command parameters. */
  type Params = map<string, string>

  datatype Message = Message(command: Method, params: Option<Params>)

  /** `format!("{:?}", m)`: the variant name as declared. */
  function VariantName(m: Method): string {
    match m
    case Browser_getVersion => "Browser_getVersion"
    case Page_navigate => "Page_navigate"
  }

  /** `str::replace("_", ".")`. */
  function ReplaceUnderscores(s: string): (r: string)
    ensures |r| == |s|
    ensures forall i :: 0 <= i < |s| ==> r[i] == (if s[i] == '_' then '.' else s[i])
  {
    seq(|s|, i requires 0 <= i < |s| => if s[i] == '_' then '.' else s[i])
  }

  /** The `Display` form of a method, the wire name of the command. */
  function MethodName(m: Method): string {
    ReplaceUnderscores(VariantName(m))
  }

  /** The method named by a wire name, if any. */
  function ParseMethod(name: string): Option<Method> {
    if name == "Browser.getVersion" then Some(Browser_getVersion)
    else if name == "Page.navigate" then Some(Page_navigate)
    else None
  }

  /** The wire names of the two commands. */
  lemma WireNames()
    ensures MethodName(Browser_getVersion) == "Browser.getVersion"
    ensures MethodName(Page_navigate) == "Page.navigate"
  {
  }

  /** The wire name is the variant name with every underscore turned into a
      dot, it contains no underscore, and it identifies the method. */
  lemma MethodNameSpelling(m: Method)
    ensures |MethodName(m)| == |VariantName(m)|
    ensures forall i :: 0 <= i < |VariantName(m)| ==>
      MethodName(m)[i] == (if VariantName(m)[i] == '_' then '.' else VariantName(m)[i])
    ensures '_' !in MethodName(m)
    ensures ParseMethod(MethodName(m)) == Some(m)
  {
    WireNames();
  }

  /** `Message::new`. */
  function New(command: Method): Message {
    Message(command, None)
  }

  /** `Message::new_with_params`. */
  function NewWithParams(command: Method, params: Params): Message {
    Message(command, Some(params))
  }

  // ---- serialisation ----

  const IdPrefix: string := "{\"id\":"
  const MethodPrefix: string := ",\"method\":"
  const ParamsPrefix: string := ",\"params\":"

  /** One `"key":"value"` object member. */
  function RenderMember(k: string, v: string): string {
    JsonText.Quote(k) + [':'] + JsonText.Quote(v)
  }

  /** The members for the keys `ks` of `p`, comma separated. */
  function RenderMembers(p: Params, ks: seq<string>): string
    requires forall i :: 0 <= i < |ks| ==> ks[i] in p
  {
    if |ks| == 0 then []
    else if |ks| == 1 then RenderMember(ks[0], p[ks[0]])
    else RenderMember(ks[0], p[ks[0]]) + [','] + RenderMembers(p, ks[1..])
  }

  /** A parameter map as a JSON object, members in ascending key order. */
  function RenderParams(p: Params): string {
    var ks := KeyOrder.SortedKeys(p.Keys);
    ['{'] + RenderMembers(p, ks) + ['}']
  }

  /** The `params` member, present only for `Some`. */
  function ParamsPart(params: Option<Params>): string {
    match params
    case None => []
    case Some(p) => ParamsPrefix + RenderParams(p)
  }

  /** `Message::serialize(&self, id)`: the object with members `id`, `method`
      and, only when the message has parameters, `params` (in that order, the
      ascending order of their names). */
  function Serialize(msg: Message, id: U64): string {
    IdPrefix + JsonText.Decimal(id) + MethodPrefix + JsonText.Quote(MethodName(msg.command))
    + ParamsPart(msg.params) + ['}']
  }

  // ---- decoding, the inverse of serialisation ----

  /** Reads `"key":"value"` and returns the pair and the text after it. */
  function ReadMember(t: string): (r: Option<((string, string), string)>)
    ensures r.Some? ==> |r.value.1| < |t|
  {
    if |t| == 0 || t[0] != '"' then None
    else match JsonText.ReadStringBody(t[1..])
      case None => None
      case Some((k, t1)) =>
        if |t1| < 2 || t1[0] != ':' || t1[1] != '"' then None
        else match JsonText.ReadStringBody(t1[2..])
          case None => None
          case Some((v, t2)) => Some(((k, v), t2))
  }

  /** Reads one or more comma separated members and the closing brace. */
  function ReadMembers(t: string): (r: Option<(seq<(string, string)>, string)>)
    ensures r.Some? ==> |r.value.1| < |t|
    decreases |t|
  {
    match ReadMember(t)
    case None => None
    case Some((kv, t1)) =>
      if |t1| > 0 && t1[0] == '}' then Some(([kv], t1[1..]))
      else if |t1| > 0 && t1[0] == ',' then
        match ReadMembers(t1[1..])
        case None => None
        case Some((kvs, t2)) => Some(([kv] + kvs, t2))
      else None
  }

  /** The map a list of members denotes; a later duplicate key wins. */
  function FromPairs(ps: seq<(string, string)>): Params {
    if |ps| == 0 then map[]
    else
      var m := FromPairs(ps[1..]);
      if ps[0].0 in m then m else m[ps[0].0 := ps[0].1]
  }

  /** Reads a JSON object of string members. */
  function ReadObject(t: string): Option<(Params, string)> {
    if |t| >= 2 && t[0] == '{' && t[1] == '}' then Some((map[], t[2..]))
    else if |t| >= 1 && t[0] == '{' then
      match ReadMembers(t[1..])
      case None => None
      case Some((ps, rest)) => Some((FromPairs(ps), rest))
    else None
  }

  /** Reads `{"id":<number>,"method":"<name>"` and returns the number, the
      name and the text after it. */
  function ReadHeader(text: string): Option<(nat, string, string)> {
    if !StartsWith(text, IdPrefix) then None
    else match JsonText.ReadNumber(text[|IdPrefix|..])
      case None => None
      case Some((n, t1)) =>
        if !StartsWith(t1, MethodPrefix) then None
        else
          var t2 := t1[|MethodPrefix|..];
          if |t2| == 0 || t2[0] != '"' then None
          else match JsonText.ReadStringBody(t2[1..])
            case None => None
            case Some((name, t3)) => Some((n, name, t3))
  }

  /** Reads what follows the method: either the closing brace alone, or a
      `params` member and then the closing brace. */
  function ReadParamsTail(t: string): Option<Option<Params>> {
    if t == ['}'] then Some(None)
    else if !StartsWith(t, ParamsPrefix) then None
    else match ReadObject(t[|ParamsPrefix|..])
      case None => None
      case Some((p, t1)) => if t1 == ['}'] then Some(Some(p)) else None
  }

  /** Reads back the text `Serialize` writes: the id and the message. */
  function Decode(text: string): Option<(U64, Message)> {
    match ReadHeader(text)
    case None => None
    case Some((n, name, t)) =>
      match (ParseMethod(name), ReadParamsTail(t))
      case (Some(command), Some(params)) =>
        if n <= U64_MAX then Some((n, Message(command, params))) else None
      case _ => None
  }

  // ---- round trip ----

  /** The members of `p` for the keys `ks`, in that order. */
  function PairsOf(p: Params, ks: seq<string>): (ps: seq<(string, string)>)
    requires forall i :: 0 <= i < |ks| ==> ks[i] in p
    ensures |ps| == |ks|
  {
    if |ks| == 0 then [] else [(ks[0], p[ks[0]])] + PairsOf(p, ks[1..])
  }

  /** How `ReadMember` succeeds, in terms of its two string reads. */
  lemma ReadMemberSteps(t: string, k: string, v: string, t1: string, t2: string)
    requires |t| > 0 && t[0] == '"'
    requires JsonText.ReadStringBody(t[1..]) == Some((k, t1))
    requires |t1| >= 2 && t1[0] == ':' && t1[1] == '"'
    requires JsonText.ReadStringBody(t1[2..]) == Some((v, t2))
    ensures ReadMember(t) == Some(((k, v), t2))
  {
  }

  /** Where the key and the value bodies sit in a rendered member. */
  lemma MemberShape(ek: string, ev: string, rest: string)
    ensures var t := ['"'] + ek + ['"'] + [':'] + (['"'] + ev + ['"']) + rest;
            var after := [':', '"'] + ev + ['"'] + rest;
            && t[0] == '"'
            && t[1..] == ek + ['"'] + after
            && after[2..] == ev + ['"'] + rest
  {
    var t := ['"'] + ek + ['"'] + [':'] + (['"'] + ev + ['"']) + rest;
    var after := [':', '"'] + ev + ['"'] + rest;
    assert t == ['"'] + (ek + ['"'] + after);
  }

  lemma ReadMemberRendered(k: string, v: string, rest: string)
    ensures ReadMember(RenderMember(k, v) + rest) == Some(((k, v), rest))
  {
    var t := RenderMember(k, v) + rest;
    var after := [':', '"'] + JsonText.Escape(v) + ['"'] + rest;
    MemberShape(JsonText.Escape(k), JsonText.Escape(v), rest);
    JsonText.ReadEscapedAt(k, after, t[1..]);
    JsonText.ReadEscapedAt(v, rest, after[2..]);
    ReadMemberSteps(t, k, v, after, rest);
  }

  /** How `ReadMembers` ends at a closing brace. */
  lemma ReadMembersLast(t: string, kv: (string, string), t1: string)
    requires ReadMember(t) == Some((kv, t1))
    requires |t1| > 0 && t1[0] == '}'
    ensures ReadMembers(t) == Some(([kv], t1[1..]))
  {
  }

  /** How `ReadMembers` continues after a comma. */
  lemma ReadMembersNext(t: string, kv: (string, string), t1: string, kvs: seq<(string, string)>, t2: string)
    requires ReadMember(t) == Some((kv, t1))
    requires |t1| > 0 && t1[0] == ','
    requires ReadMembers(t1[1..]) == Some((kvs, t2))
    ensures ReadMembers(t) == Some(([kv] + kvs, t2))
  {
  }

  /** Re-association of the text around a comma or a closing brace. */
  lemma ListShape(a: string, b: string, rest: string)
    ensures a + ['}'] + rest == a + (['}'] + rest) && (['}'] + rest)[1..] == rest
    ensures a + [','] + b + ['}'] + rest == a + ([','] + b + ['}'] + rest)
    ensures ([','] + b + ['}'] + rest)[1..] == b + ['}'] + rest
  {
  }

  lemma {:induction false} ReadMembersRendered(p: Params, ks: seq<string>, rest: string)
    requires |ks| > 0
    requires forall i :: 0 <= i < |ks| ==> ks[i] in p
    ensures ReadMembers(RenderMembers(p, ks) + ['}'] + rest) == Some((PairsOf(p, ks), rest))
    decreases |ks|
  {
    var k := ks[0];
    var first := RenderMember(k, p[k]);
    if |ks| == 1 {
      assert RenderMembers(p, ks) == first;
      ListShape(first, [], rest);
      ReadMemberRendered(k, p[k], ['}'] + rest);
      ReadMembersLast(first + (['}'] + rest), (k, p[k]), ['}'] + rest);
      assert PairsOf(p, ks) == [(k, p[k])];
    } else {
      var others := RenderMembers(p, ks[1..]);
      assert RenderMembers(p, ks) == first + [','] + others;
      ListShape(first, others, rest);
      var tail := [','] + others + ['}'] + rest;
      ReadMemberRendered(k, p[k], tail);
      ReadMembersRendered(p, ks[1..], rest);
      ReadMembersNext(first + tail, (k, p[k]), tail, PairsOf(p, ks[1..]), rest);
    }
  }

  lemma {:induction false} FromPairsOf(p: Params, ks: seq<string>)
    requires forall i :: 0 <= i < |ks| ==> ks[i] in p
    requires forall i, j :: 0 <= i < j < |ks| ==> ks[i] != ks[j]
    ensures FromPairs(PairsOf(p, ks)) == map k | k in ks :: p[k]
    decreases |ks|
  {
    if |ks| > 0 {
      var ps := PairsOf(p, ks);
      assert ps[1..] == PairsOf(p, ks[1..]);
      FromPairsOf(p, ks[1..]);
      var m := FromPairs(ps[1..]);
      assert ks[0] !in ks[1..];
      assert ks[0] !in m;
      assert FromPairs(ps) == m[ks[0] := p[ks[0]]];
      assert forall k :: k in ks <==> k == ks[0] || k in ks[1..];
    }
  }

  lemma RenderMembersStart(p: Params, ks: seq<string>)
    requires |ks| > 0
    requires forall i :: 0 <= i < |ks| ==> ks[i] in p
    ensures |RenderMembers(p, ks)| > 0 && RenderMembers(p, ks)[0] == '"'
  {
    var first := RenderMember(ks[0], p[ks[0]]);
    RenderMemberStart(ks[0], p[ks[0]]);
    var rest := RenderMembersAfterFirst(p, ks);
    HeadOfConcat(first, rest);
  }

  /** The members split after the first one. */
  lemma RenderMembersAfterFirst(p: Params, ks: seq<string>) returns (rest: string)
    requires |ks| > 0
    requires forall i :: 0 <= i < |ks| ==> ks[i] in p
    ensures RenderMembers(p, ks) == RenderMember(ks[0], p[ks[0]]) + rest
  {
    if |ks| > 1 {
      rest := [','] + RenderMembers(p, ks[1..]);
    } else {
      rest := [];
    }
  }

  lemma RenderMemberStart(k: string, v: string)
    ensures |RenderMember(k, v)| > 0 && RenderMember(k, v)[0] == '"'
  {
    var key := JsonText.Quote(k);
    HeadOfConcat(['"'], JsonText.Escape(k) + ['"']);
    assert key == ['"'] + (JsonText.Escape(k) + ['"']);
    HeadOfConcat(key, [':'] + JsonText.Quote(v));
    assert RenderMember(k, v) == key + ([':'] + JsonText.Quote(v));
  }

  lemma HeadOfConcat(a: string, b: string)
    requires |a| > 0
    ensures |a + b| > 0 && (a + b)[0] == a[0]
  {
  }

  /** Where the members sit in a rendered object. */
  lemma ObjectShape(body: string, rest: string)
    ensures var t := ['{'] + body + ['}'] + rest;
            && t[0] == '{'
            && t[1..] == body + ['}'] + rest
            && (|body| == 0 ==> |t| >= 2 && t[1] == '}' && t[2..] == rest)
            && (|body| > 0 ==> |t| >= 2 && t[1] == body[0])
  {
  }

  lemma ReadObjectEmpty(t: string)
    requires |t| >= 2 && t[0] == '{' && t[1] == '}'
    ensures ReadObject(t) == Some((map[], t[2..]))
  {
  }

  lemma ReadObjectMembers(t: string, ps: seq<(string, string)>, rest: string)
    requires |t| >= 2 && t[0] == '{' && t[1] != '}'
    requires ReadMembers(t[1..]) == Some((ps, rest))
    ensures ReadObject(t) == Some((FromPairs(ps), rest))
  {
  }

  lemma RestrictToAllKeys(p: Params, ks: seq<string>)
    requires forall k :: k in ks <==> k in p
    ensures (map k | k in ks :: p[k]) == p
  {
  }

  /** The object reader undoes `RenderParams`. */
  lemma ReadParamsRendered(p: Params, rest: string)
    ensures ReadObject(RenderParams(p) + rest) == Some((p, rest))
  {
    var ks := KeyOrder.SortedKeys(p.Keys);
    var body := RenderMembers(p, ks);
    var t := ['{'] + body + ['}'] + rest;
    ObjectShape(body, rest);
    if |ks| == 0 {
      assert p == map[];
      ReadObjectEmpty(t);
    } else {
      RenderMembersStart(p, ks);
      ReadMembersRendered(p, ks, rest);
      ReadObjectMembers(t, PairsOf(p, ks), rest);
      KeyOrder.AscendingDistinct(ks);
      FromPairsOf(p, ks);
      RestrictToAllKeys(p, ks);
    }
  }

  /** Where the pieces sit in a header. */
  lemma HeaderShape(digits: string, body: string, after: string)
    ensures var text := IdPrefix + digits + MethodPrefix + (['"'] + body + ['"']) + after;
            var t1 := MethodPrefix + (['"'] + body + ['"']) + after;
            && StartsWith(text, IdPrefix)
            && text[|IdPrefix|..] == digits + t1
            && StartsWith(t1, MethodPrefix)
            && t1[|MethodPrefix|..][0] == '"'
            && t1[|MethodPrefix|..][1..] == body + ['"'] + after
  {
    var text := IdPrefix + digits + MethodPrefix + (['"'] + body + ['"']) + after;
    var t1 := MethodPrefix + (['"'] + body + ['"']) + after;
    assert text == IdPrefix + (digits + t1);
    assert t1 == MethodPrefix + (['"'] + (body + ['"'] + after));
  }

  /** The header reader recovers the id and the wire name. */
  lemma ReadHeaderRendered(id: nat, name: string, after: string)
    ensures ReadHeader(IdPrefix + JsonText.Decimal(id) + MethodPrefix + JsonText.Quote(name) + after)
         == Some((id, name, after))
  {
    var d := JsonText.Decimal(id);
    var body := JsonText.Escape(name);
    HeaderShape(d, body, after);
    var t1 := MethodPrefix + (['"'] + body + ['"']) + after;
    assert MethodPrefix[0] == ',';
    JsonText.DecimalRoundTrip(id, t1);
    JsonText.ReadEscapedAt(name, after, t1[|MethodPrefix|..][1..]);
  }

  /** The tail reader recovers the optional parameters. */
  lemma ReadParamsTailRendered(params: Option<Params>)
    ensures ReadParamsTail(ParamsPart(params) + ['}']) == Some(params)
  {
    match params
    case None =>
      assert ParamsPart(params) + ['}'] == ['}'];
    case Some(p) =>
      var t := ParamsPart(params) + ['}'];
      assert t == ParamsPrefix + (RenderParams(p) + ['}']);
      assert t[|ParamsPrefix|..] == RenderParams(p) + ['}'];
      assert t != ['}'];
      ReadParamsRendered(p, ['}']);
  }

  /** Decoding what `serialize` wrote gives back the id and the message: the
      `id` member is the argument in decimal, the `method` member the wire
      name, and the `params` member is present exactly when the message has
      parameters and then maps every key to its value. */
  lemma SerializeRoundTrip(msg: Message, id: U64)
    ensures Decode(Serialize(msg, id)) == Some((id, msg))
  {
    var after := ParamsPart(msg.params) + ['}'];
    assert Serialize(msg, id)
        == IdPrefix + JsonText.Decimal(id) + MethodPrefix + JsonText.Quote(MethodName(msg.command)) + after;
    ReadHeaderRendered(id, MethodName(msg.command), after);
    MethodNameSpelling(msg.command);
    ReadParamsTailRendered(msg.params);
  }

  /** Distinct ids give distinct texts, whatever the messages. */
  lemma SerializeDistinguishesIds(m1: Message, m2: Message, id1: U64, id2: U64)
    requires id1 != id2
    ensures Serialize(m1, id1) != Serialize(m2, id2)
  {
    SerializeRoundTrip(m1, id1);
    SerializeRoundTrip(m2, id2);
  }

  /** A message built by `new` has no `params` member on the wire; one built
      by `new_with_params` carries exactly the given map. */
  lemma ConstructorsOnTheWire(command: Method, params: Params, id: U64)
    ensures Decode(Serialize(New(command), id)) == Some((id, Message(command, None)))
    ensures Decode(Serialize(NewWithParams(command, params), id)) == Some((id, Message(command, Some(params))))
  {
    SerializeRoundTrip(New(command), id);
    SerializeRoundTrip(NewWithParams(command, params), id);
  }

  // The two unit-test vectors. The expected strings are written as the
  // pieces the serializer emits; concatenated, each piece list is exactly the
  // single literal the crate's unit test compares against. The lemmas up to
  // `NavigateText` only evaluate those pieces for the two sample inputs.

  lemma Sample123()
    ensures JsonText.Decimal(123) == "123"
  {
    assert JsonText.Decimal(12) == "12" by { assert JsonText.Decimal(1) == "1"; }
  }

  lemma Sample456()
    ensures JsonText.Decimal(456) == "456"
  {
    assert JsonText.Decimal(45) == "45" by { assert JsonText.Decimal(4) == "4"; }
  }

  lemma SampleQuote(s: string)
    requires s == "Browser.getVersion" || s == "Page.navigate" || s == "url" || s == "https://example.com"
    ensures JsonText.Quote(s) == ['"'] + s + ['"']
  {
    assert forall i :: 0 <= i < |s| ==> JsonText.Plain(s[i]);
    JsonText.EscapePlain(s);
  }

  lemma Associate(a: string, b: string, c: string, d: string, e: string, f: string,
                  g: string, h: string, i: string, j: string, k: string)
    ensures a + b + c + d + (e + (f + (g + h + i) + j)) + k == a + b + c + d + e + f + g + h + i + j + k
  {
  }

  lemma SampleParams()
    ensures RenderParams(map["url" := "https://example.com"])
         == ['{'] + (JsonText.Quote("url") + [':'] + JsonText.Quote("https://example.com")) + ['}']
  {
    var p := map["url" := "https://example.com"];
    assert p.Keys == {"url"};
    KeyOrder.SortedSingleton("url");
  }

  lemma GetVersionText(d: string, q: string)
    requires d == "123" && q == ['"'] + "Browser.getVersion" + ['"']
    ensures IdPrefix + d + MethodPrefix + q + [] + ['}']
         == "{\"id\":" + "123" + ",\"method\":" + "\"Browser.getVersion\"" + "}"
  {
    assert q == "\"Browser.getVersion\"";
  }

  lemma NavigateText(d: string, q1: string, q2: string, q3: string)
    requires d == "456"
    requires q1 == ['"'] + "Page.navigate" + ['"']
    requires q2 == ['"'] + "url" + ['"']
    requires q3 == ['"'] + "https://example.com" + ['"']
    ensures IdPrefix + d + MethodPrefix + q1 + (ParamsPrefix + (['{'] + (q2 + [':'] + q3) + ['}'])) + ['}']
         == "{\"id\":" + "456" + ",\"method\":" + "\"Page.navigate\"" + ",\"params\":"
          + "{" + "\"url\"" + ":" + "\"https://example.com\"" + "}" + "}"
  {
    assert q1 == "\"Page.navigate\"";
    assert q2 == "\"url\"";
    assert q3 == "\"https://example.com\"";
    Associate(IdPrefix, "456", MethodPrefix, q1, ParamsPrefix, ['{'], q2, [':'], q3, ['}'], ['}']);
  }

  /** The first string the crate's own unit test expects (written here in the
      pieces the serializer emits). */
  lemma SerializeGetVersionVector()
    ensures Serialize(Message(Browser_getVersion, None), 123)
         == "{\"id\":" + "123" + ",\"method\":" + "\"Browser.getVersion\"" + "}"
  {
    WireNames();
    Sample123();
    SampleQuote("Browser.getVersion");
    GetVersionText(JsonText.Decimal(123), JsonText.Quote("Browser.getVersion"));
  }

  /** The second string the crate's own unit test expects: the parameters
      follow the method. */
  lemma SerializeNavigateVector()
    ensures Serialize(Message(Page_navigate, Some(map["url" := "https://example.com"])), 456)
         == "{\"id\":" + "456" + ",\"method\":" + "\"Page.navigate\"" + ",\"params\":"
          + "{" + "\"url\"" + ":" + "\"https://example.com\"" + "}" + "}"
  {
    SampleParams();
    WireNames();
    Sample456();
    SampleQuote("Page.navigate");
    SampleQuote("url");
    SampleQuote("https://example.com");
    NavigateText(JsonText.Decimal(456), JsonText.Quote("Page.navigate"),
                 JsonText.Quote("url"), JsonText.Quote("https://example.com"));
  }
}
