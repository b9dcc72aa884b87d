/** The parsed document tree (Jackson `JsonNode`) and the JSON Pointer
    navigation `JsonNode.at` performs, with tokens decoded as section 4 of
    RFC 6901 prescribes. */
module Json {
  import opened Results
  import Strings

  /** A parsed YAML/JSON value. Objects keep their fields in document order,
      which is the iteration order of Jackson's `ObjectNode`. */
  datatype Json =
    | JNull
    | JBool(b: bool)
    /** Any JSON number, integral or decimal (`minimum: 1.5`). */
    | JNumber(n: real)
    | JString(s: string)
    | JArray(items: seq<Json>)
    | JObject(fields: seq<(string, Json)>)

  /** `ObjectNode.get(key)`: the value of the first field named `key`. */
  function Field(fields: seq<(string, Json)>, key: string): (r: Option<Json>)
    ensures r.Some? <==> exists i :: 0 <= i < |fields| && fields[i].0 == key
    ensures r.Some? ==> exists i :: 0 <= i < |fields| && fields[i] == (key, r.value)
  {
    if |fields| == 0 then None
    else if fields[0].0 == key then Some(fields[0].1)
    else
      var r := Field(fields[1..], key);
      assert forall i :: 0 < i < |fields| ==> fields[i] == fields[1..][i - 1];
      r
  }

  /** Decodes one reference token (section 4 of RFC 6901): `~1` stands for
      `/` and `~0` for `~`, read left to right so that `~01` is `~1`. Like
      Jackson's `JsonPointer`, a `~` followed by any other character keeps
      both characters and resumes after them, so `~~0` stays `~~0`; a `~` at
      the end is kept. */
  function Unescape(t: string): string {
    if |t| == 0 then ""
    else if t[0] == '~' && |t| >= 2 && t[1] == '1' then "/" + Unescape(t[2..])
    else if t[0] == '~' && |t| >= 2 && t[1] == '0' then "~" + Unescape(t[2..])
    else if t[0] == '~' && |t| >= 2 then t[..2] + Unescape(t[2..])
    else [t[0]] + Unescape(t[1..])
  }

  /** An escape that is neither `~0` nor `~1` is kept, together with the
      character it swallows. */
  lemma UnknownEscapeKept()
    ensures Unescape("~~0") == "~~0"
  {
    var t := "~~0";
    assert t[..2] == "~~" && t[2..] == "0";
    assert Unescape("0") == "0";
  }

  /** Encodes a key as a reference token: `~` becomes `~0`, `/` becomes `~1`. */
  function Escape(key: string): (r: string)
    ensures '/' !in r
  {
    if |key| == 0 then ""
    else if key[0] == '~' then "~0" + Escape(key[1..])
    else if key[0] == '/' then "~1" + Escape(key[1..])
    else [key[0]] + Escape(key[1..])
  }

  /** Decoding undoes encoding for every key. */
  lemma {:induction false} UnescapeEscape(key: string)
    ensures Unescape(Escape(key)) == key
  {
    if |key| > 0 {
      UnescapeEscape(key[1..]);
      var e := Escape(key[1..]);
      if key[0] == '~' {
        assert ("~0" + e)[2..] == e;
      } else if key[0] == '/' {
        assert ("~1" + e)[2..] == e;
      } else {
        assert ([key[0]] + e)[1..] == e;
      }
      assert key == [key[0]] + key[1..];
    }
  }

  function UnescapeAll(raw: seq<string>): (r: seq<string>)
    ensures |r| == |raw|
    ensures forall i :: 0 <= i < |raw| ==> r[i] == Unescape(raw[i])
  {
    if |raw| == 0 then [] else [Unescape(raw[0])] + UnescapeAll(raw[1..])
  }

  function EscapeAll(keys: seq<string>): (r: seq<string>)
    ensures |r| == |keys|
    ensures forall i :: 0 <= i < |keys| ==> r[i] == Escape(keys[i])
  {
    if |keys| == 0 then [] else [Escape(keys[0])] + EscapeAll(keys[1..])
  }

  /** `JsonPointer.compile`: the empty pointer selects the whole document; any
      other pointer must start with `/` and yields one decoded token per
      `/`-separated segment. */
  function ParsePointer(p: string): (r: Option<seq<string>>)
    ensures r.Some? <==> p == "" || p[0] == '/'
  {
    if p == "" then Some([])
    else if p[0] != '/' then None
    else Some(UnescapeAll(Strings.Split(p[1..], '/')))
  }

  /** Writes tokens as a pointer, escaping each one. */
  function RenderPointer(tokens: seq<string>): string {
    if |tokens| == 0 then "" else "/" + Strings.Join(EscapeAll(tokens), '/')
  }

  /** Reading a rendered pointer gives back its tokens: decoding is the
      inverse of encoding on whole pointers, not just single tokens. */
  lemma PointerRoundTrip(tokens: seq<string>)
    ensures ParsePointer(RenderPointer(tokens)) == Some(tokens)
  {
    if |tokens| > 0 {
      var escaped := EscapeAll(tokens);
      var p := RenderPointer(tokens);
      assert p[1..] == Strings.Join(escaped, '/');
      Strings.SplitJoin(escaped, '/');
      var decoded := UnescapeAll(escaped);
      forall i | 0 <= i < |tokens|
        ensures decoded[i] == tokens[i]
      {
        UnescapeEscape(tokens[i]);
      }
      assert decoded == tokens;
      assert p != "" && p[0] == '/';
    }
  }

  predicate IsDigit(c: char) { '0' <= c <= '9' }

  function DigitsValue(s: string): nat
    requires forall i :: 0 <= i < |s| ==> IsDigit(s[i])
  {
    if |s| == 0 then 0
    else
      assert IsDigit(s[|s| - 1]);
      DigitsValue(s[..|s| - 1]) * 10 + (s[|s| - 1] as int - '0' as int)
  }

  /** The array index a token denotes in Jackson: decimal digits without a
      leading zero (except `0` itself), at most ten of them, and no larger
      than `Integer.MAX_VALUE`. Any other token selects nothing in an array. */
  function ArrayIndex(t: string): (r: Option<nat>)
    ensures r.Some? <==> t == "0" || (0 < |t| <= 10 && t[0] != '0' && (forall i :: 0 <= i < |t| ==> IsDigit(t[i]))
                                      && DigitsValue(t) <= 0x7fff_ffff)
    ensures r.Some? ==> (forall i :: 0 <= i < |t| ==> IsDigit(t[i])) && r.value == DigitsValue(t)
    ensures r.Some? ==> r.value <= 0x7fff_ffff
  {
    if |t| == 0 || |t| > 10 then None
    else if t == "0" then Some(0)
    else if !(forall i :: 0 <= i < |t| ==> IsDigit(t[i])) || t[0] == '0' then None
    else if DigitsValue(t) > 0x7fff_ffff then None
    else Some(DigitsValue(t))
  }

  /** Follows decoded tokens from `node`; `None` is Jackson's `MissingNode`. */
  function Navigate(node: Json, tokens: seq<string>): Option<Json>
    decreases |tokens|
  {
    if |tokens| == 0 then Some(node)
    else
      match node
      case JObject(fields) =>
        (match Field(fields, tokens[0])
         case Some(child) => Navigate(child, tokens[1..])
         case None => None)
      case JArray(items) =>
        (match ArrayIndex(tokens[0])
         case Some(k) => if k < |items| then Navigate(items[k], tokens[1..]) else None
         case None => None)
      case _ => None
  }

  /** `JsonNode.at(pointer)`: the node the pointer's tokens lead to. Jackson
      throws on a pointer without a leading `/`; here such a pointer yields
      nothing. */
  function At(node: Json, pointer: string): (r: Option<Json>)
    ensures pointer == "" ==> r == Some(node)
    ensures ParsePointer(pointer).Some? ==> r == Navigate(node, ParsePointer(pointer).value)
    ensures ParsePointer(pointer).None? ==> r.None?
  {
    match ParsePointer(pointer)
    case Some(tokens) => Navigate(node, tokens)
    case None => None
  }
}
