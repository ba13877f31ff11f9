/** Route ids of apps/web/lib/entity-routes.ts: an id in unpadded base64url behind a known prefix. */
module EntityRoutes {
  import opened Base64
  import opened Options
  import opened StableSort
  import opened Text
  import Utf8

  // ---- Base64url ----

  function UrlLetter(c: char): char {
    if c == '+' then '-' else if c == '/' then '_' else c
  }

  function PlainLetter(c: char): char {
    if c == '-' then '+' else if c == '_' then '/' else c
  }

  function MapText(s: string, f: char -> char): (r: string)
    ensures |r| == |s| && forall i :: 0 <= i < |s| ==> r[i] == f(s[i])
  {
    seq(|s|, i requires 0 <= i < |s| => f(s[i]))
  }

  /** `.replace(/=+$/g, "")`. */
  function StripPadding(s: string): string {
    if s != "" && s[|s| - 1] == '=' then StripPadding(s[..|s| - 1]) else s
  }

  /** The bytes as a "binary string", one character below U+0100 for each byte, and back. */
  function BinaryString(b: seq<Utf8.Byte>): (s: string)
    ensures |s| == |b|
    ensures forall i :: 0 <= i < |b| ==> s[i] == b[i] as char
  {
    seq(|b|, i requires 0 <= i < |b| => b[i] as char)
  }

  predicate IsBinary(s: string) {
    forall i :: 0 <= i < |s| ==> s[i] as int < 256
  }

  function BinaryBytes(s: string): (b: seq<Utf8.Byte>)
    requires IsBinary(s)
    ensures |b| == |s| && forall i :: 0 <= i < |s| ==> b[i] == s[i] as int
  {
    seq(|s|, i requires 0 <= i < |s| => s[i] as int)
  }

  function UrlEncode(b: seq<Utf8.Byte>): string {
    StripPadding(MapText(Btoa(b), UrlLetter))
  }

  function ToBase64Url(value: string): string {
    UrlEncode(Utf8.Encode(value))
  }

  /** The byte loop of `toBase64Url`, which builds the binary string that `btoa` takes. */
  method ToBase64UrlLoop(value: string) returns (r: string)
    ensures r == ToBase64Url(value)
  {
    var bytes := Utf8.Encode(value);
    var binary := "";
    for i := 0 to |bytes|
      invariant binary == BinaryString(bytes[..i])
    {
      binary := binary + [bytes[i] as char];
    }
    assert bytes[..|bytes|] == bytes && BinaryBytes(binary) == bytes;
    r := StripPadding(MapText(Btoa(BinaryBytes(binary)), UrlLetter));
  }

  /** `fromBase64Url`; `None` is the exception `atob` throws. */
  function FromBase64Url(value: string): Option<string> {
    var base64 := MapText(value, PlainLetter);
    match Atob(base64 + Padding(Missing(|base64|)))
    case None => None
    case Some(bytes) => Some(StripBom(Utf8.Decode(bytes)))
  }

  /** The alphabet of section 5 of RFC 4648, which is also `[A-Za-z0-9_-]`. */
  predicate IsSafeChar(c: char) {
    'A' <= c <= 'Z' || 'a' <= c <= 'z' || '0' <= c <= '9' || c == '_' || c == '-'
  }

  predicate AllSafe(s: string) {
    forall i :: 0 <= i < |s| ==> IsSafeChar(s[i])
  }

  lemma {:induction false} StripPads(letters: string, n: nat)
    requires forall i :: 0 <= i < |letters| ==> letters[i] != '='
    ensures StripPadding(letters + Padding(n)) == letters
  {
    var s := letters + Padding(n);
    if n > 0 {
      StripPads(letters, n - 1);
      assert s[..|s| - 1] == letters + Padding(n - 1);
    } else {
      assert s == letters;
    }
  }

  /** The encoded text is the letters without padding: of length ceil(4n/3) and over the safe
      alphabet, so it holds none of `+`, `/` and `=`. */
  lemma UrlEncodeShape(b: seq<Utf8.Byte>)
    ensures UrlEncode(b) == MapText(Letters(Sextets(b)), UrlLetter)
    ensures |UrlEncode(b)| == (4 * |b| + 2) / 3
    ensures AllSafe(UrlEncode(b))
  {
    hide Sextets;
    var letters := Letters(Sextets(b));
    var url := MapText(letters, UrlLetter);
    forall i | 0 <= i < |letters| ensures IsSafeChar(url[i]) {
      assert Index(letters[i]).Some?;
    }
    var n := Missing(|letters|);
    assert MapText(Btoa(b), UrlLetter) == url + Padding(n);
    StripPads(url, n);
  }

  /** Base64url of any bytes decodes to the same bytes. */
  lemma UrlDecodeBytes(b: seq<Utf8.Byte>)
    ensures var base64 := MapText(UrlEncode(b), PlainLetter);
            Atob(base64 + Padding(Missing(|base64|))) == Some(b)
  {
    hide Sextets;
    UrlEncodeShape(b);
    var letters := Letters(Sextets(b));
    forall i | 0 <= i < |letters| ensures PlainLetter(UrlLetter(letters[i])) == letters[i] {
      assert Index(letters[i]).Some?;
    }
    assert MapText(UrlEncode(b), PlainLetter) == letters;
    AtobBtoa(b);
  }

  lemma UrlEncodeInjective(a: seq<Utf8.Byte>, b: seq<Utf8.Byte>)
    requires UrlEncode(a) == UrlEncode(b)
    ensures a == b
  {
    UrlDecodeBytes(a);
    UrlDecodeBytes(b);
  }

  /** Text survives, except that the decoder drops one leading byte order mark. */
  lemma Base64UrlRoundTrip(value: string)
    ensures FromBase64Url(ToBase64Url(value)) == Some(StripBom(value))
    ensures FromBase64Url(ToBase64Url(value)) == Some(value) <==> value == "" || value[0] != BYTE_ORDER_MARK
  {
    UrlDecodeBytes(Utf8.Encode(value));
    Utf8.DecodeEncode(value);
  }

  /** Text without blanks and pads decodes exactly when it is over the alphabet, either in its plain or in its url form,
      and not one letter too long. */
  lemma DecodableExactly(value: string)
    requires forall i :: 0 <= i < |value| ==> value[i] !in "\t\n\U{000C}\r ="
    ensures FromBase64Url(value).Some?
            <==> && |value| % 4 != 1
                 && forall i :: 0 <= i < |value| ==>
                      || 'A' <= value[i] <= 'Z' || 'a' <= value[i] <= 'z' || '0' <= value[i] <= '9'
                      || value[i] in "+/-_"
  {
    hide Utf8.Decode, StripBom;
    var base64 := MapText(value, PlainLetter);
    forall i | 0 <= i < |value|
      ensures !IsAsciiSpace(base64[i]) && base64[i] != '='
      ensures IsLetter(base64[i]) <==> || 'A' <= value[i] <= 'Z' || 'a' <= value[i] <= 'z' || '0' <= value[i] <= '9'
                                       || value[i] in "+/-_"
    {
      OneLetter(value[i]);
    }
    AtobPadded(base64);
  }

  lemma OneLetter(c: char)
    requires c !in "\t\n\U{000C}\r ="
    ensures !IsAsciiSpace(PlainLetter(c)) && PlainLetter(c) != '='
    ensures IsLetter(PlainLetter(c))
            <==> 'A' <= c <= 'Z' || 'a' <= c <= 'z' || '0' <= c <= '9' || c in "+/-_"
  {
    var blanks, more := "\t\n\U{000C}\r =", "+/-_";
    assert blanks[0] != c && blanks[1] != c && blanks[2] != c && blanks[3] != c && blanks[4] != c && blanks[5] != c;
    assert more[0] == '+' && more[1] == '/' && more[2] == '-' && more[3] == '_';
  }

  // ---- Route ids ----

  const APPLICATION_PREFIX := "appref"
  const CANDIDATE_PREFIX := "candref"
  const SOURCING_PROJECT_PREFIX := "srcproj"

  predicate IsKnownPrefix(p: string) {
    p == APPLICATION_PREFIX || p == CANDIDATE_PREFIX || p == SOURCING_PROJECT_PREFIX || p == "app" || p == "cand"
  }

  function EncodeRouteEntityId(prefix: string, id: string): string {
    prefix + "_" + ToBase64Url(id)
  }

  predicate IsSafeId(id: string) {
    id != "" && AllSafe(id)
  }

  function DecodeRouteEntityId(routeId: string): string {
    var separator := IndexOf(routeId, '_');
    if separator == |routeId| || separator <= 0 then routeId
    else if !IsKnownPrefix(routeId[..separator]) then routeId
    else
      var encoded := routeId[separator + 1..];
      if encoded == "" then routeId
      else match FromBase64Url(encoded)
        case None => routeId
        case Some(text) =>
          var decoded := Trim(text);
          if !IsSafeId(decoded) then routeId else decoded
  }

  /** A non-empty string over `[A-Za-z0-9_-]`. */
  predicate IsPlainId(id: string) {
    id != "" && forall i :: 0 <= i < |id| ==>
      || 'A' <= id[i] <= 'Z' || 'a' <= id[i] <= 'z' || '0' <= id[i] <= '9' || id[i] == '_' || id[i] == '-'
  }

  lemma SafeIsPlain(id: string)
    ensures IsSafeId(id) <==> IsPlainId(id)
  {
  }

  lemma KnownPrefixes(p: string)
    ensures IsKnownPrefix(p) <==> p in {"appref", "candref", "srcproj", "app", "cand"}
  {
  }

  lemma RouteSeparator(prefix: string, id: string)
    requires Free(prefix, '_')
    ensures IndexOf(EncodeRouteEntityId(prefix, id), '_') == |prefix|
  {
    assert EncodeRouteEntityId(prefix, id)[..|prefix|] == prefix;
    IndexOfUnique(EncodeRouteEntityId(prefix, id), '_', |prefix|);
  }

  lemma SafeIdIsPlain(id: string)
    requires IsSafeId(id)
    ensures StripBom(id) == id && Trim(id) == id
  {
  }

  lemma EncodedIsLonger(prefix: string, id: string)
    ensures |EncodeRouteEntityId(prefix, id)| > |id|
  {
    UrlEncodeShape(Utf8.Encode(id));
  }

  /** A link to an entity opens that entity exactly when its id is a non-empty string over
      `[A-Za-z0-9_-]`; for any other id the reader is left with a different string. Behind any other prefix nothing is
      decoded. */
  lemma RouteRoundTrip(prefix: string, id: string)
    requires Free(prefix, '_')
    ensures prefix in {"appref", "candref", "srcproj", "app", "cand"} ==>
              (DecodeRouteEntityId(EncodeRouteEntityId(prefix, id)) == id <==> IsPlainId(id))
    ensures prefix !in {"appref", "candref", "srcproj", "app", "cand"} ==>
              DecodeRouteEntityId(EncodeRouteEntityId(prefix, id)) == EncodeRouteEntityId(prefix, id)
  {
    hide ToBase64Url, FromBase64Url, IsSafeId, IsPlainId, IsKnownPrefix;
    var routeId := EncodeRouteEntityId(prefix, id);
    RouteSeparator(prefix, id);
    KnownPrefixes(prefix);
    SafeIsPlain(id);
    assert routeId[..|prefix|] == prefix && routeId[|prefix| + 1..] == ToBase64Url(id);
    EncodedIsLonger(prefix, id);
    Base64UrlRoundTrip(id);
    if IsSafeId(id) {
      SafeIdIsPlain(id);
      NonEmptyEncoding(id);
    }
  }

  lemma NonEmptyEncoding(id: string)
    requires IsSafeId(id)
    ensures ToBase64Url(id) != ""
  {
    UrlEncodeShape(Utf8.Encode(id));
  }

  /** Different prefixes or different ids, safe or not, never share a route id. */
  lemma RouteIdInjective(p: string, x: string, q: string, y: string)
    requires Free(p, '_') && Free(q, '_')
    requires EncodeRouteEntityId(p, x) == EncodeRouteEntityId(q, y)
    ensures p == q && x == y
  {
    var routeId := EncodeRouteEntityId(p, x);
    RouteSeparator(p, x);
    RouteSeparator(q, y);
    assert p == routeId[..|p|] == q;
    assert ToBase64Url(x) == routeId[|p| + 1..] == ToBase64Url(y);
    UrlEncodeInjective(Utf8.Encode(x), Utf8.Encode(y));
    Utf8.EncodeInjective(x, y);
  }

  /** Whatever arrives in the address bar, the result is the text itself or a safe id. */
  lemma DecodedIsSafeOrUnchanged(routeId: string)
    ensures DecodeRouteEntityId(routeId) == routeId || IsPlainId(DecodeRouteEntityId(routeId))
  {
    hide FromBase64Url, IsPlainId, IsSafeId, IsKnownPrefix, Trim;
    SafeIsPlain(DecodeRouteEntityId(routeId));
  }

  lemma {:induction false} FewerBytes(s: seq<Sextet>)
    ensures 4 * |Bytes(s)| <= 3 * |s|
  {
    if |s| >= 4 {
      FewerBytes(s[4..]);
    }
  }

  lemma {:induction false} FewerScalars(b: seq<Utf8.Byte>)
    ensures |Utf8.Decode(b)| <= |b|
    decreases |b|
  {
    if b != [] {
      FewerScalars(b[Utf8.DecodeStep(b).used..]);
    }
  }

  lemma {:induction false} FewerLetters(s: string)
    ensures |WithoutSpaces(s)| <= |s|
  {
    if s != "" {
      FewerLetters(s[1..]);
    }
  }

  /** What is decoded is shorter than the route id it came from, so it always differs from it. */
  lemma DecodedIsShort(value: string)
    ensures FromBase64Url(value).Some? ==> |Trim(FromBase64Url(value).value)| < |value| + 4
  {
    hide Trim, Utf8.Decode, WithoutSpaces, Indices, Bytes;
    var base64 := MapText(value, PlainLetter);
    var padded := base64 + Padding(Missing(|base64|));
    var letters := WithoutPadding(WithoutSpaces(padded));
    FewerLetters(padded);
    IndicesDefined(letters);
    if FromBase64Url(value).Some? {
      var indices := Indices(letters).value;
      FewerBytes(indices);
      FewerScalars(Bytes(indices));
      var lo, hi := TrimWindow(FromBase64Url(value).value);
    }
  }

  /** At this `_` stands a known prefix, and what follows decodes to a safe id. */
  predicate EncodedAt(routeId: string, i: nat) {
    && i < |routeId| && routeId[i] == '_' && routeId[..i] in {"appref", "candref", "srcproj", "app", "cand"}
    && var text := FromBase64Url(routeId[i + 1..]);
       text.Some? && IsPlainId(Trim(text.value))
  }

  /** A text that reads as an encoded id. */
  ghost predicate ReadsAsEncoded(routeId: string) {
    exists i: nat :: EncodedAt(routeId, i)
  }

  lemma EncodedAtExactly(routeId: string, i: nat)
    requires i < |routeId| && routeId[i] == '_'
    ensures EncodedAt(routeId, i)
            <==> IsKnownPrefix(routeId[..i])
                 && var text := FromBase64Url(routeId[i + 1..]); text.Some? && IsSafeId(Trim(text.value))
  {
    hide FromBase64Url, Trim;
  }

  /** No known prefix holds a `_`, so it is the first one that separates. */
  lemma EncodedAtFirst(routeId: string)
    ensures ReadsAsEncoded(routeId) <==> EncodedAt(routeId, IndexOf(routeId, '_'))
  {
    hide FromBase64Url, IsPlainId, Trim, IndexOf;
    if i: nat :| EncodedAt(routeId, i) {
      PrefixesAreFree(routeId[..i]);
      IndexOfUnique(routeId, '_', i);
    }
  }

  lemma PrefixesAreFree(p: string)
    requires p in {"appref", "candref", "srcproj", "app", "cand"}
    ensures Free(p, '_')
  {
  }

  /** Callers also pass ids that were never encoded. A text comes back unchanged exactly when it does not read
      as an encoded id; this holds for every text, and so for every raw id. */
  lemma UnchangedIffNotEncoded(routeId: string)
    ensures DecodeRouteEntityId(routeId) == routeId <==> !ReadsAsEncoded(routeId)
  {
    hide FromBase64Url, Trim, AllSafe, ReadsAsEncoded, IsPlainId;
    EncodedAtFirst(routeId);
    var i := IndexOf(routeId, '_');
    if i < |routeId| {
      EncodedAtExactly(routeId, i);
      DecodedIsShort(routeId[i + 1..]);
      NothingEncoded();
    }
  }

  lemma NothingEncoded()
    ensures FromBase64Url("") == Some("") && !IsSafeId(Trim(""))
  {
    assert Btoa([]) == "" && Utf8.Encode("") == [];
    UrlDecodeBytes([]);
    UrlEncodeShape([]);
    assert UrlEncode([]) == "";
    Base64UrlRoundTrip("");
  }

  /** A safe raw id that does read as one: it is taken for the id it encodes. */
  lemma RawIdMisread()
    ensures IsPlainId("app_YQ") && ReadsAsEncoded("app_YQ") && DecodeRouteEntityId("app_YQ") == "a"
  {
    hide FromBase64Url, ReadsAsEncoded, ToBase64Url;
    EncodedLetterA();
    RouteRoundTrip("app", "a");
    UnchangedIffNotEncoded("app_YQ");
  }

  lemma EncodedLetterA()
    ensures EncodeRouteEntityId("app", "a") == "app_YQ"
  {
    var b: seq<Utf8.Byte> := [97];
    assert Utf8.Encode("a") == Utf8.EncodeChar('a') + Utf8.Encode("") == b;
    UrlEncodeShape(b);
    assert Sextets(b) == [24, 16];
    assert UrlEncode(b) == [UrlLetter(Letter(24)), UrlLetter(Letter(16))];
  }

  // ---- The canonical application ----

  datatype Application = Application(id: string, stageUpdatedAt: Option<int>, createdAt: Option<int>) {
    function Date(): int {
      if stageUpdatedAt.Some? then stageUpdatedAt.value else if createdAt.Some? then createdAt.value else 0
    }
  }

  /** The comparator `rightDate - leftDate`. */
  function MoreRecent(): (Application, Application) -> bool {
    (left: Application, right: Application) => right.Date() < left.Date()
  }

  function PickCanonicalApplicationId(applications: seq<Application>): Option<string> {
    var sorted := Sort(applications, MoreRecent());
    if sorted == [] then None else Some(sorted[0].id)
  }

  /** The time of the last change of stage, or else of creation, or else the epoch. */
  predicate DatedAt(a: Application, date: int) {
    || a.stageUpdatedAt == Some(date)
    || (a.stageUpdatedAt.None? && a.createdAt == Some(date))
    || (a.stageUpdatedAt.None? && a.createdAt.None? && date == 0)
  }

  /** The pick is the most recently touched application, the first listed of several; of none there is no pick. */
  lemma CanonicalIsMostRecent(applications: seq<Application>) returns (i: nat)
    ensures applications == [] ==> PickCanonicalApplicationId(applications) == None
    ensures applications != [] ==>
              && i < |applications| && PickCanonicalApplicationId(applications) == Some(applications[i].id)
              && (forall j, date, latest | 0 <= j < |applications| && DatedAt(applications[j], date)
                                           && DatedAt(applications[i], latest) ::
                    if j < i then date < latest else date <= latest)
  {
    i := 0;
    if applications != [] {
      i := HeadIsFirstBest(applications, MoreRecent());
      forall j, date, latest | 0 <= j < |applications| && DatedAt(applications[j], date)
                               && DatedAt(applications[i], latest)
        ensures if j < i then date < latest else date <= latest
      {
        assert !MoreRecent()(applications[j], applications[i]);
        assert j < i ==> MoreRecent()(applications[i], applications[j]);
      }
    }
  }
}
