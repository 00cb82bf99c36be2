/**
 Keys in request paths. A key is routed as it stands in the path, that is
 percent-encoded, and decoded only after the rewrite; a listing shows it
 decoded. What the literal text of a route then means for the keys themselves.
 */
module PathCoding {
  import opened Text
  import opened PercentCoding

  /** How a client writes each byte of a key in a path. */
  type PathCode = char -> string

  /** Unreserved characters and slashes stand for themselves; '%' and newlines are escaped; others may be either. */
  ghost predicate ValidCode(code: PathCode) {
    forall c: char {:trigger code(c)} :: c as int < 256 ==> Codes(code(c), c)
  }

  predicate Codes(text: string, c: char) {
    if text == [c] then c != '%' && c != '\n'
    else |text| == 3 && Escape(text) && Unescape(text) == [c] && !Unreserved(c) && c != '/'
  }

  function EncodePath(code: PathCode, key: string): string {
    if key == "" then "" else code(key[0]) + EncodePath(code, key[1..])
  }

  lemma {:induction false} EncodePathConcat(code: PathCode, a: string, b: string)
    ensures EncodePath(code, a + b) == EncodePath(code, a) + EncodePath(code, b)
  {
    if a == "" {
      assert a + b == b;
    } else {
      assert (a + b)[1..] == a[1..] + b;
      EncodePathConcat(code, a[1..], b);
    }
  }

  lemma {:induction false} CodeDecodes(code: PathCode, c: char, rest: string)
    requires ValidCode(code) && c as int < 256
    ensures Unescape(code(c) + rest) == [c] + Unescape(rest)
    ensures '\n' !in code(c)
  {
    var text := code(c);
    assert Codes(text, c);
    if text == [c] {
      assert (text + rest)[1..] == rest;
    } else {
      assert (text + rest)[3..] == rest && text[3..] == "";
    }
  }

  /** Decoding a path gives the key back, and paths hold no newline. */
  lemma {:induction false} DecodePath(code: PathCode, key: string)
    requires ValidCode(code) && IsBytes(key)
    ensures Unescape(EncodePath(code, key)) == key
    ensures '\n' !in EncodePath(code, key)
  {
    if key != "" {
      hide Unescape;
      DecodePath(code, key[1..]);
      CodeDecodes(code, key[0], EncodePath(code, key[1..]));
      assert key == [key[0]] + key[1..];
    }
  }

  /** Behind text that leaves no escape open, the path of a key decodes to that key. */
  lemma {:induction false} DecodeBehind(code: PathCode, base: string, key: string)
    requires ValidCode(code) && IsBytes(key) && !Dangling(base)
    ensures Unescape(base + EncodePath(code, key)) == Unescape(base) + key
  {
    UnescapeConcatIff(base);
    DecodePath(code, key);
  }

  /**
   A base and the path of a rest decode, with the path of any key behind them,
   to base, rest and key: nothing in the base is taken for an escape.
   */
  predicate DecodesInPlace(code: PathCode, base: string, rest: string) {
    var text := base + EncodePath(code, rest);
    Unescape(text) == base + rest && !Dangling(text)
  }

  /** And where that holds, it holds for every key; where it does not, some short key shows it. */
  lemma {:induction false} DecodesInPlaceIff(code: PathCode, base: string, rest: string)
    requires ValidCode(code)
    ensures DecodesInPlace(code, base, rest) <==>
            forall key :: IsBytes(key) ==> Unescape(base + EncodePath(code, rest + key)) == base + (rest + key)
  {
    hide DecodesInPlace;
    if DecodesInPlace(code, base, rest) {
      forall key | IsBytes(key)
        ensures Unescape(base + EncodePath(code, rest + key)) == base + (rest + key)
      {
        KeyInPlace(code, base, rest, key);
      }
    } else {
      var key := Misread(code, base, rest);
    }
  }

  lemma {:induction false} KeyInPlace(code: PathCode, base: string, rest: string, key: string)
    requires ValidCode(code) && IsBytes(key) && DecodesInPlace(code, base, rest)
    ensures Unescape(base + EncodePath(code, rest + key)) == base + (rest + key)
  {
    hide Unescape, Dangling;
    EncodePathConcat(code, rest, key);
    Assoc(base, EncodePath(code, rest), EncodePath(code, key));
    DecodeBehind(code, base + EncodePath(code, rest), key);
    Assoc(base, rest, key);
  }

  /** A key within one path level. */
  predicate ShortKey(key: string) { IsBytes(key) && key != "" && '/' !in key && '\n' !in key }

  lemma {:induction false} Misread(code: PathCode, base: string, rest: string) returns (key: string)
    requires ValidCode(code) && !DecodesInPlace(code, base, rest)
    ensures ShortKey(key) && Unescape(base + EncodePath(code, rest + key)) != base + (rest + key)
  {
    hide Unescape, Dangling;
    var text := base + EncodePath(code, rest);
    key := MisreadBehind(code, text, base + rest);
    EncodePathConcat(code, rest, key);
    Assoc(base, EncodePath(code, rest), EncodePath(code, key));
    Assoc(base, rest, key);
  }

  lemma {:induction false} MisreadBehind(code: PathCode, text: string, plain: string) returns (key: string)
    requires ValidCode(code) && (Unescape(text) != plain || Dangling(text))
    ensures ShortKey(key)
    ensures Unescape(text + EncodePath(code, key)) != plain + key
  {
    hide Unescape;
    key := if Unescape(text) == plain then Completion(text) else "g";
    UnreservedKept(code, key);
    if Unescape(text) == plain {
      CompletedIsShorter(text);
    } else {
      NoHexBehind(text);
      if Unescape(text) + key == plain + key {
        CommonEnd(Unescape(text), plain, key);
      }
    }
  }

  /** What is no hexadecimal digit completes no escape. */
  lemma {:induction false} NoHexBehind(text: string)
    ensures Unescape(text + "g") == Unescape(text) + "g"
  {
    if text == "" {
      assert text + "g" == "g" && "g"[1..] == "";
    } else {
      var n := if Escape(text) then 3 else 1;
      assert (text + "g")[n..] == text[n..] + "g";
      assert Escape(text + "g") <==> Escape(text);
      NoHexBehind(text[n..]);
    }
  }

  lemma {:induction false} CommonEnd(a: string, b: string, t: string)
    requires a + t == b + t
    ensures a == b
  {
    assert (a + t)[..|a|] == a && (b + t)[..|b|] == b;
  }

  lemma {:induction false} UnreservedKept(code: PathCode, key: string)
    requires ValidCode(code) && forall i :: 0 <= i < |key| ==> Unreserved(key[i]) || key[i] == '/'
    ensures EncodePath(code, key) == key
  {
    if key != "" {
      var c := key[0];
      assert c as int < 256 && Codes(code(c), c);
      UnreservedKept(code, key[1..]);
      assert key == [c] + key[1..];
    }
  }

  // ----- which keys a literal text in a route matches -----

  /** Empty, or ending at a path level, as the literal text of a route does. */
  predicate LevelEnd(text: string) { text == "" || text[|text| - 1] == '/' }

  /** The text that a key must start with for its path to start with l; None if no path does. */
  function RoutedText(code: PathCode, l: string): Option<string> {
    if EncodePath(code, Unescape(l)) == l then Some(Unescape(l)) else None
  }

  /** Text that a path starts with, up to the end of a level, is the path of a prefix of the key. */
  lemma {:induction false} PrefixOfPath(code: PathCode, l: string, key: string) returns (w: string)
    requires ValidCode(code) && IsBytes(key) && LevelEnd(l) && l <= EncodePath(code, key)
    ensures w <= key && EncodePath(code, w) == l
  {
    if l == "" {
      w := "";
    } else {
      var c, text := key[0], code(key[0]);
      assert Codes(text, c);
      var rest := PrefixOfPath(code, l[|text|..], key[1..]);
      w := [c] + rest;
      assert w[1..] == rest;
    }
  }

  /** So a path starts with l exactly when the key starts with the routed text of l. */
  lemma {:induction false} RoutedIff(code: PathCode, l: string, key: string)
    requires ValidCode(code) && IsBytes(key) && LevelEnd(l)
    ensures l <= EncodePath(code, key) <==> RoutedText(code, l).Some? && RoutedText(code, l).value <= key
    ensures l <= EncodePath(code, key) ==>
              EncodePath(code, key)[|l|..] == EncodePath(code, key[|RoutedText(code, l).value|..])
  {
    hide Unescape;
    if l <= EncodePath(code, key) {
      var w := PrefixOfPath(code, l, key);
      assert IsBytes(w);
      DecodePath(code, w);
    }
    if RoutedText(code, l).Some? && RoutedText(code, l).value <= key {
      var w := RoutedText(code, l).value;
      assert key == w + key[|w|..];
      EncodePathConcat(code, w, key[|w|..]);
    }
  }

  /** Text that starts its own path is left as it is. */
  lemma {:induction false} StartsOwnPath(code: PathCode, l: string)
    requires ValidCode(code) && IsBytes(l) && LevelEnd(l) && l <= EncodePath(code, l)
    ensures EncodePath(code, l) == l
    decreases |l|
  {
    var w := PrefixOfPath(code, l, l);
    if |w| < |l| {
      PathEndsLevel(code, w);
      StartsOwnPath(code, w);
    } else {
      assert w == l;
    }
  }

  /** A path that ends a level is the path of a key that does. */
  lemma {:induction false} PathEndsLevel(code: PathCode, key: string)
    requires ValidCode(code) && IsBytes(key) && LevelEnd(EncodePath(code, key))
    ensures LevelEnd(key)
  {
    if key != "" {
      var init, c := key[..|key| - 1], key[|key| - 1];
      assert key == init + [c] && [c][1..] == "";
      EncodePathConcat(code, init, [c]);
      assert EncodePath(code, [c]) == code(c);
      assert Codes(code(c), c);
    }
  }

  /** The routed text and the text itself agree as soon as both start one key. */
  lemma {:induction false} RoutedOverlap(code: PathCode, l: string, key: string)
    requires ValidCode(code) && IsBytes(key) && LevelEnd(l) && l <= key && l <= EncodePath(code, key)
    ensures EncodePath(code, l) == l && RoutedText(code, l) == Some(l)
  {
    EncodePathConcat(code, l, key[|l|..]);
    assert key == l + key[|l|..];
    LongerPath(code, l);
    assert l <= EncodePath(code, l);
    StartsOwnPath(code, l);
    DecodePath(code, l);
  }

  lemma {:induction false} LongerPath(code: PathCode, key: string)
    requires ValidCode(code) && IsBytes(key)
    ensures |EncodePath(code, key)| >= |key|
  {
    if key != "" {
      assert Codes(code(key[0]), key[0]);
      LongerPath(code, key[1..]);
    }
  }

  /** A path spells text as it is exactly if it escapes none of its characters. */
  lemma {:induction false} SpelledAsItIsIff(code: PathCode, text: string)
    requires ValidCode(code) && IsBytes(text)
    ensures EncodePath(code, text) == text <==> forall i :: 0 <= i < |text| ==> code(text[i]) == [text[i]]
  {
    if text != "" {
      var c, rest := text[0], text[1..];
      assert Codes(code(c), c);
      assert text == [c] + rest;
      SpelledAsItIsIff(code, rest);
      LongerPath(code, rest);
      if code(c) == [c] {
        assert EncodePath(code, text)[1..] == EncodePath(code, rest);
      } else {
        assert |EncodePath(code, text)| > |text|;
      }
    }
  }

  /** Text that is spelled as it is decodes to itself, whatever follows. */
  lemma {:induction false} OwnSpelling(code: PathCode, l: string, rest: string)
    requires ValidCode(code) && IsBytes(l) && LevelEnd(l) && EncodePath(code, l) == l
    ensures RoutedText(code, l) == Some(l)
    ensures Unescape(l + rest) == l + Unescape(rest)
  {
    hide Unescape, EncodePath;
    DecodePath(code, l);
    assert !Dangling(l);
    UnescapeConcat(l, rest);
  }

  lemma {:induction false} UnescapeBytes(s: string)
    requires IsBytes(s)
    ensures IsBytes(Unescape(s))
  {
    if s != "" {
      UnescapeBytes(if Escape(s) then s[3..] else s[1..]);
    }
  }
}
