/** The option parser of scripts/provision-pilot-account.ts. */
module CommandLine {
  import opened Options
  import opened Text

  /** A parsed option: present without a value, or with one. */
  datatype Arg = Flag | Value(text: string)

  /** The key that a plain object does not store: assigning a text or a flag to it does nothing. */
  const PROTO_KEY := "__proto__"

  /** `parsed[key] = value`. */
  function Store(parsed: map<string, Arg>, key: string, value: Arg): map<string, Arg> {
    if key == PROTO_KEY then parsed else parsed[key := value]
  }

  predicate IsOption(word: string) {
    |word| >= 2 && word[..2] == "--"
  }

  /** `token.split("=", 2)`: the text before the first `=` and, if there is one, the text between the
      first and the second; whatever follows the second is lost. */
  function SplitToken(token: string): (string, Option<string>) {
    var i := IndexOf(token, '=');
    if i == |token| then (token, None)
    else
      var rest := token[i + 1..];
      (token[..i], Some(rest[..IndexOf(rest, '=')]))
  }

  /** The rest of the words after those already read into `parsed`. */
  function Parse(argv: seq<string>, parsed: map<string, Arg>): map<string, Arg>
    decreases |argv|
  {
    if argv == [] then parsed
    else if !IsOption(argv[0]) then Parse(argv[1..], parsed)
    else
      var (key, inlineValue) := SplitToken(argv[0][2..]);
      if inlineValue.Some? then Parse(argv[1..], Store(parsed, key, Value(inlineValue.value)))
      else if |argv| == 1 || argv[1] == "" || IsOption(argv[1]) then Parse(argv[1..], Store(parsed, key, Flag))
      else Parse(argv[2..], Store(parsed, key, Value(argv[1])))
  }

  /** The loop of `parseArgs`, which skips a word it took as a value. */
  method ParseArgs(argv: seq<string>) returns (parsed: map<string, Arg>)
    ensures parsed == Parse(argv, map[])
  {
    parsed := map[];
    var index := 0;
    while index < |argv|
      invariant 0 <= index <= |argv|
      invariant Parse(argv[index..], parsed) == Parse(argv, map[])
    {
      var current := argv[index];
      assert argv[index..][1..] == argv[index + 1..];
      if !IsOption(current) {
        index := index + 1;
        continue;
      }
      var (key, inlineValue) := SplitToken(current[2..]);
      if inlineValue.Some? {
        parsed := Store(parsed, key, Value(inlineValue.value));
        index := index + 1;
        continue;
      }
      if index + 1 == |argv| || argv[index + 1] == "" || IsOption(argv[index + 1]) {
        parsed := Store(parsed, key, Flag);
        index := index + 1;
        continue;
      }
      assert argv[index..][2..] == argv[index + 2..];
      parsed := Store(parsed, key, Value(argv[index + 1]));
      index := index + 2;
    }
  }

  // ---- Printing command lines ----

  /** A word of a command line that is read on its own: an option in one of its three forms, or any other word, which
      is skipped. */
  datatype Item =
    | Bare(key: string)
    | Spaced(key: string, value: string)
    | Inline(key: string, value: string)
    | Stray(word: string)

  function Print(o: Item): (words: seq<string>)
    ensures words != []
  {
    match o
    case Bare(key) => ["--" + key]
    case Spaced(key, value) => ["--" + key, value]
    case Inline(key, value) => ["--" + key + "=" + value]
    case Stray(word) => [word]
  }

  function PrintAll(items: seq<Item>): seq<string> {
    if items == [] then [] else Print(items[0]) + PrintAll(items[1..])
  }

  function Meaning(o: Item): Arg
    requires !o.Stray?
  {
    if o.Bare? then Flag else Value(o.value)
  }

  function Absorb(o: Item, parsed: map<string, Arg>): map<string, Arg> {
    if o.Stray? then parsed else Store(parsed, o.key, Meaning(o))
  }

  function AbsorbAll(items: seq<Item>, parsed: map<string, Arg>): map<string, Arg>
    decreases |items|
  {
    if items == [] then parsed else AbsorbAll(items[1..], Absorb(items[0], parsed))
  }

  /** A spaced value must not be empty or look like an option, an inline value must not hold `=`, and a skipped word
      must not look like an option. */
  predicate Printable(o: Item) {
    && (!o.Stray? ==> Free(o.key, '='))
    && (o.Spaced? ==> o.value != "" && !("--" <= o.value))
    && (o.Inline? ==> Free(o.value, '='))
    && (o.Stray? ==> !("--" <= o.word))
  }

  /** No skipped word but the empty one stands right behind a bare option, which would take it as its value. */
  predicate Separated(items: seq<Item>) {
    forall i :: 0 <= i < |items| - 1 && items[i].Bare? && items[i + 1].Stray? ==> items[i + 1].word == ""
  }

  lemma SplitPrinted(key: string, value: string)
    requires Free(key, '=')
    ensures SplitToken(key) == (key, None)
    ensures SplitToken(key + "=" + value) == (key, Some(value[..IndexOf(value, '=')]))
  {
    assert key[..|key|] == key;
    IndexOfUnique(key, '=', |key|);
    var token := key + "=" + value;
    assert token[..|key|] == key && token[|key| + 1..] == value;
    IndexOfUnique(token, '=', |key|);
  }

  lemma NoEquals(value: string)
    ensures value[..IndexOf(value, '=')] == value <==> Free(value, '=')
  {
  }

  lemma ParseFirst(o: Item, rest: seq<string>, parsed: map<string, Arg>)
    requires Printable(o) && (o.Bare? && rest != [] ==> rest[0] == "" || IsOption(rest[0]))
    ensures Parse(Print(o) + rest, parsed) == Parse(rest, Absorb(o, parsed))
  {
    hide SplitToken, IndexOf;
    var argv := Print(o) + rest;
    assert argv[|Print(o)|..] == rest;
    match o
    case Bare(key) =>
      SplitPrinted(key, "");
      assert argv[0][2..] == key;
      assert argv[1..] == rest;
    case Spaced(key, value) =>
      SplitPrinted(key, "");
      assert argv[0][2..] == key;
      assert argv[1] == value && argv[2..] == rest;
    case Inline(key, value) =>
      SplitPrinted(key, value);
      NoEquals(value);
      assert argv[0][2..] == key + "=" + value;
      assert argv[1..] == rest;
    case Stray(word) =>
      assert argv[1..] == rest;
  }

  lemma {:induction false} ParseAbsorbs(items: seq<Item>, parsed: map<string, Arg>)
    requires (forall i :: 0 <= i < |items| ==> Printable(items[i])) && Separated(items)
    ensures Parse(PrintAll(items), parsed) == AbsorbAll(items, parsed)
    decreases |items|
  {
    hide Parse, Absorb, Printable;
    if items == [] {
      NothingToParse(parsed);
    } else {
      assert forall i :: 0 <= i < |items| - 1 ==> items[1..][i] == items[i + 1];
      if |items| > 1 && items[0].Bare? {
        FirstWord(items[1], PrintAll(items[2..]));
        assert items[1..][1..] == items[2..];
      }
      ParseFirst(items[0], PrintAll(items[1..]), parsed);
      ParseAbsorbs(items[1..], Absorb(items[0], parsed));
    }
  }

  lemma NothingToParse(parsed: map<string, Arg>)
    ensures Parse([], parsed) == parsed
  {
  }

  lemma FirstWord(o: Item, rest: seq<string>)
    ensures (Print(o) + rest)[0] == Print(o)[0]
    ensures !o.Stray? ==> IsOption(Print(o)[0])
  {
  }

  predicate Names(o: Item, key: string) {
    !o.Stray? && o.key == key
  }

  /** The last item that names the key, or none. */
  ghost predicate IsLast(items: seq<Item>, i: nat, key: string) {
    && i < |items| && Names(items[i], key)
    && forall j :: i < j < |items| ==> !Names(items[j], key)
  }

  lemma {:induction false} AbsorbedLast(items: seq<Item>, parsed: map<string, Arg>, key: string)
    ensures var r := AbsorbAll(items, parsed);
            && (key == "__proto__" || (forall i :: 0 <= i < |items| ==> !Names(items[i], key)) ==>
                  (key in r <==> key in parsed) && (key in r ==> r[key] == parsed[key]))
            && (forall i: nat :: key != "__proto__" && IsLast(items, i, key) ==>
                  key in r && r[key] == Meaning(items[i]))
    decreases |items|
  {
    if items != [] {
      AbsorbedLast(items[1..], Absorb(items[0], parsed), key);
      assert forall j :: 0 < j < |items| ==> items[j] == items[1..][j - 1];
      forall i: nat | key != "__proto__" && IsLast(items, i, key)
        ensures key in AbsorbAll(items, parsed) && AbsorbAll(items, parsed)[key] == Meaning(items[i])
      {
        if i > 0 {
          assert IsLast(items[1..], i - 1, key);
        }
      }
    }
  }

  /** Every printable command line is read back: under each key stands what its last option says, and nothing else is
      there; a word consumed as a value never costs the option after it, and words between options are skipped. */
  lemma OptionsRoundTrip(items: seq<Item>, key: string)
    requires (forall i :: 0 <= i < |items| ==> Printable(items[i])) && Separated(items)
    ensures var parsed := Parse(PrintAll(items), map[]);
            && (key == "__proto__" || (forall i :: 0 <= i < |items| && !items[i].Stray? ==> items[i].key != key) ==>
                  key !in parsed)
            && (forall i | && 0 <= i < |items| && !items[i].Stray? && items[i].key == key && key != "__proto__"
                           && (forall j :: i < j < |items| && !items[j].Stray? ==> items[j].key != key) ::
                  key in parsed && parsed[key] == if items[i].Bare? then Flag else Value(items[i].value))
  {
    hide Parse, AbsorbAll;
    ParseAbsorbs(items, map[]);
    AbsorbedLast(items, map[], key);
    forall i | 0 <= i < |items| && !items[i].Stray? && items[i].key == key && key != "__proto__"
               && (forall j :: i < j < |items| && !items[j].Stray? ==> items[j].key != key)
      ensures var parsed := Parse(PrintAll(items), map[]);
              key in parsed && parsed[key] == if items[i].Bare? then Flag else Value(items[i].value)
    {
      assert IsLast(items, i, key);
    }
  }

  lemma ParseInline(key: string, value: string)
    requires Free(key, '=')
    ensures Parse(Print(Inline(key, value)), map[]) == Store(map[], key, Value(value[..IndexOf(value, '=')]))
  {
    hide SplitToken, IndexOf, Store;
    SplitPrinted(key, value);
    var argv := Print(Inline(key, value));
    assert argv[0][2..] == key + "=" + value && argv[1..] == [];
  }

  /** The condition on values is exact: an inline value comes back if and only if it holds no `=` and the key is
      one that a plain object stores; with an `=` it is cut at its first one. */
  lemma InlineValueExact(key: string, value: string)
    requires Free(key, '=')
    ensures Parse(Print(Inline(key, value)), map[]) == map[key := Value(value)]
       <==> Free(value, '=') && key != "__proto__"
  {
    hide Parse, IndexOf;
    ParseInline(key, value);
    NoEquals(value);
    var cut := Value(value[..IndexOf(value, '=')]);
    var empty: map<string, Arg> := map[];
    assert key != "__proto__" ==> Store(empty, key, cut)[key] == cut;
    assert key == "__proto__" ==> key !in Store(empty, key, cut);
    assert key in map[key := Value(value)] && map[key := Value(value)][key] == Value(value);
  }

  lemma ParseSpaced(key: string, value: string)
    requires Free(key, '=')
    ensures var flagged := Store(map[], key, Flag);
            Parse(Print(Spaced(key, value)), map[])
            == if value == "" then flagged
               else if !IsOption(value) then Store(map[], key, Value(value))
               else var (k, v) := SplitToken(value[2..]); Store(flagged, k, if v.Some? then Value(v.value) else Flag)
  {
    hide SplitToken, Store;
    SplitPrinted(key, "");
    var argv := Print(Spaced(key, value));
    var flagged := Store(map[], key, Flag);
    assert argv[0][2..] == key && argv[1..] == [value] && argv[2..] == [] && [value][1..] == [];
    if value == "" || IsOption(value) {
      assert Parse(argv, map[]) == Parse([value], flagged);
      if value != "" {
        var (k, v) := SplitToken(value[2..]);
        assert Parse([value], flagged) == Parse([], Store(flagged, k, if v.Some? then Value(v.value) else Flag));
      } else {
        assert Parse([value], flagged) == Parse([], flagged);
      }
    } else {
      assert Parse(argv, map[]) == Parse([], Store(map[], key, Value(value)));
    }
  }

  /** And a spaced value comes back if and only if it is non-empty, does not start with `--`, and the key is one
      that a plain object stores. */
  lemma SpacedValueExact(key: string, value: string)
    requires Free(key, '=')
    ensures Parse(Print(Spaced(key, value)), map[]) == map[key := Value(value)]
       <==> value != "" && !("--" <= value) && key != "__proto__"
  {
    hide Parse;
    ParseSpaced(key, value);
    assert key in map[key := Value(value)] && map[key := Value(value)][key] == Value(value);
    if value != "" && IsOption(value) {
      var (k, v) := SplitToken(value[2..]);
      assert v.Some? ==> |v.value| < |value|;
    }
  }
}
