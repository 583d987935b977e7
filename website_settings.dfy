/**
 * The admin "website settings" editor: the list of settings loaded from the
 * store, edited per key, shown with its quotes stripped, and saved one
 * upsert at a time.
 */
module Settings {
  import opened Common

  /** A stored `setting_value`: a JSON string, or any other JSON value (kept as its text). */
  datatype Json = JString(s: string) | JOther(text: string)

  datatype Setting = Setting(key: string, value: Json, description: string)

  // ---------------------------------------------------------------------------
  // updateSetting

  /** `updateSetting`: every entry with the key gets the new value; all else is kept. */
  function UpdateSetting(settings: seq<Setting>, key: string, value: Json): (r: seq<Setting>)
    ensures |r| == |settings|
    ensures forall i :: 0 <= i < |r| ==> r[i].key == settings[i].key && r[i].description == settings[i].description
    ensures forall i :: 0 <= i < |r| && settings[i].key == key ==> r[i].value == value
    ensures forall i :: 0 <= i < |r| && settings[i].key != key ==> r[i] == settings[i]
    decreases |settings|
  {
    if settings == [] then []
    else
      var head := if settings[0].key == key then settings[0].(value := value) else settings[0];
      var rest := UpdateSetting(settings[1..], key, value);
      assert forall i :: 1 <= i < |settings| ==> ([head] + rest)[i] == rest[i - 1];
      [head] + rest
  }

  predicate HasKey(settings: seq<Setting>, key: string)
  {
    exists i :: 0 <= i < |settings| && settings[i].key == key
  }

  /** An absent key leaves the list as it was. */
  lemma UpdateMissingKey(settings: seq<Setting>, key: string, value: Json)
    requires !HasKey(settings, key)
    ensures UpdateSetting(settings, key, value) == settings
  {
    var r := UpdateSetting(settings, key, value);
    assert forall i :: 0 <= i < |r| ==> r[i] == settings[i];
  }

  /** A second update of the same key overrides the first. */
  lemma UpdateTwice(settings: seq<Setting>, key: string, v: Json, w: Json)
    ensures UpdateSetting(UpdateSetting(settings, key, v), key, w) == UpdateSetting(settings, key, w)
  {
    var m := UpdateSetting(settings, key, v);
    var a := UpdateSetting(m, key, w);
    var b := UpdateSetting(settings, key, w);
    forall i | 0 <= i < |a|
      ensures a[i] == b[i]
    {
      assert m[i].key == settings[i].key;
    }
  }

  // ---------------------------------------------------------------------------
  // getSettingValue

  /** `replace(/"/g, '')`. */
  function RemoveQuotes(s: string): (r: string)
    ensures |r| <= |s|
    ensures forall i :: 0 <= i < |r| ==> r[i] != '"'
    ensures (forall i :: 0 <= i < |s| ==> s[i] != '"') ==> r == s
    decreases |s|
  {
    if s == [] then []
    else (if s[0] == '"' then [] else [s[0]]) + RemoveQuotes(s[1..])
  }

  lemma {:induction false} RemoveQuotesConcat(a: string, b: string)
    ensures RemoveQuotes(a + b) == RemoveQuotes(a) + RemoveQuotes(b)
    decreases |a|
  {
    if a == [] {
      assert a + b == b;
    } else {
      var head := if a[0] == '"' then [] else [a[0]];
      calc {
        RemoveQuotes(a + b);
        == { assert (a + b)[0] == a[0] && (a + b)[1..] == a[1..] + b; }
        head + RemoveQuotes(a[1..] + b);
        == { RemoveQuotesConcat(a[1..], b); }
        head + (RemoveQuotes(a[1..]) + RemoveQuotes(b));
        ==
        (head + RemoveQuotes(a[1..])) + RemoveQuotes(b);
      }
    }
  }

  /** On one character the filter drops a quote and keeps anything else. */
  lemma RemoveQuotesChar(c: char)
    ensures RemoveQuotes([c]) == if c == '"' then [] else [c]
  {
    assert [c][1..] == [];
  }

  /** The index of the first entry with the key, as `find` picks it. */
  function FindIndex(settings: seq<Setting>, key: string): (r: Option<nat>)
    ensures r.None? <==> !HasKey(settings, key)
    ensures r.Some? ==> r.value < |settings| && settings[r.value].key == key
                        && forall j :: 0 <= j < r.value ==> settings[j].key != key
    decreases |settings|
  {
    if settings == [] then None
    else if settings[0].key == key then Some(0)
    else
      match FindIndex(settings[1..], key)
      case None => None
      case Some(i) => Some(i + 1)
  }

  /** Entry `i` is the first one with the key. */
  predicate FirstWithKey(settings: seq<Setting>, key: string, i: int)
  {
    0 <= i < |settings| && settings[i].key == key && forall j :: 0 <= j < i ==> settings[j].key != key
  }

  /** How a stored value is shown: a string with its quotes removed, anything else as is. */
  function StripShown(v: Json): Json
  {
    match v
    case JString(s) => JString(RemoveQuotes(s))
    case JOther(_) => v
  }

  /** `getSettingValue`: `''` when absent, else the first entry with the key, shown with quotes stripped. */
  function GetSettingValue(settings: seq<Setting>, key: string): (r: Json)
    ensures !HasKey(settings, key) ==> r == JString("")
    ensures forall i :: FirstWithKey(settings, key, i) ==> r == StripShown(settings[i].value)
  {
    match FindIndex(settings, key)
    case None => JString("")
    case Some(i) =>
      assert forall j :: FirstWithKey(settings, key, j) ==> j == i;
      StripShown(settings[i].value)
  }

  /** `find` returns the first entry with the key. */
  lemma FindIndexIsFirst(settings: seq<Setting>, key: string, i: int)
    requires FirstWithKey(settings, key, i)
    ensures FindIndex(settings, key) == Some(i)
  {
    var k := FindIndex(settings, key).value;
    assert settings[k].key == key;
  }

  /** An update keeps the position of the first entry with each key. */
  lemma UpdateKeepsFirst(settings: seq<Setting>, key: string, v: Json, i: int)
    requires FirstWithKey(settings, key, i)
    ensures FindIndex(UpdateSetting(settings, key, v), key) == Some(i)
    ensures UpdateSetting(settings, key, v)[i].value == v
  {
    var r := UpdateSetting(settings, key, v);
    assert FirstWithKey(r, key, i);
    FindIndexIsFirst(r, key, i);
  }

  /** After an update of a present key with a string, the field shows that string without its quotes. */
  lemma GetAfterUpdate(settings: seq<Setting>, key: string, v: string)
    requires HasKey(settings, key)
    ensures GetSettingValue(UpdateSetting(settings, key, JString(v)), key) == JString(RemoveQuotes(v))
  {
    UpdateKeepsFirst(settings, key, JString(v), FindIndex(settings, key).value);
  }

  /** An update of one key neither adds nor removes entries with another key. */
  lemma UpdateKeepsOtherKeys(settings: seq<Setting>, key: string, other: string, v: Json)
    requires key != other
    ensures HasKey(UpdateSetting(settings, key, v), other) <==> HasKey(settings, other)
  {
    var r := UpdateSetting(settings, key, v);
    if HasKey(settings, other) {
      var i :| 0 <= i < |settings| && settings[i].key == other;
      assert r[i].key == other;
    }
  }

  /** An update of one key keeps the first entry with every other key, value and all. */
  lemma UpdateKeepsOtherFirst(settings: seq<Setting>, key: string, other: string, v: Json, i: int)
    requires key != other && FirstWithKey(settings, other, i)
    ensures FirstWithKey(UpdateSetting(settings, key, v), other, i)
    ensures UpdateSetting(settings, key, v)[i] == settings[i]
  {
  }

  /** An update of one key is invisible through every other key. */
  lemma GetOtherKey(settings: seq<Setting>, key: string, other: string, v: Json)
    requires key != other
    ensures GetSettingValue(UpdateSetting(settings, key, v), other) == GetSettingValue(settings, other)
  {
    UpdateKeepsOtherKeys(settings, key, other, v);
    if HasKey(settings, other) {
      var i := FindIndex(settings, other).value;
      UpdateKeepsOtherFirst(settings, key, other, v, i);
    }
  }

  // ---------------------------------------------------------------------------
  // JSON.stringify of a string, as the inputs' onChange handlers apply it

  const Hex: string := "0123456789abcdef"

  /** The escape `JSON.stringify` writes for one character. */
  function EscapeJsonChar(c: char): (r: string)
    ensures |r| >= 1
    ensures (c == '"' || c == '\\' || c < ' ') <==> |r| > 1
    ensures |r| == 1 ==> r == [c]
    ensures |r| > 1 ==> r[0] == '\\'
    ensures forall i :: 0 <= i < |r| && r[i] == '"' ==> c == '"'
  {
    if c == '"' then "\\\""
    else if c == '\\' then "\\\\"
    else if c == '\U{0008}' then "\\b"
    else if c == '\t' then "\\t"
    else if c == '\n' then "\\n"
    else if c == '\U{000C}' then "\\f"
    else if c == '\r' then "\\r"
    else if c < ' ' then
      var n := c as int;
      "\\u00" + [Hex[n / 16], Hex[n % 16]]
    else [c]
  }

  function EncodeJsonBody(s: string): (r: string)
    ensures |r| >= |s|
    decreases |s|
  {
    if s == [] then [] else EscapeJsonChar(s[0]) + EncodeJsonBody(s[1..])
  }

  /** `JSON.stringify` of a string value. */
  function Stringify(s: string): (r: string)
    ensures |r| >= |s| + 2 && r[0] == '"' && r[|r| - 1] == '"'
  {
    "\"" + EncodeJsonBody(s) + "\""
  }

  /** Characters that `JSON.stringify` leaves alone. */
  predicate NeedsNoEscape(s: string)
  {
    forall i :: 0 <= i < |s| ==> s[i] != '"' && s[i] != '\\' && s[i] >= ' '
  }

  /** Text with nothing to escape is encoded as itself. */
  lemma {:induction false} EncodePlainText(s: string)
    requires NeedsNoEscape(s)
    ensures EncodeJsonBody(s) == s
    decreases |s|
  {
    if s != [] {
      assert NeedsNoEscape(s[1..]) by {
        forall i | 0 <= i < |s[1..]| ensures s[1..][i] == s[i + 1] { }
      }
      EncodePlainText(s[1..]);
      EncodeJsonBodyCons(s[0], s[1..]);
      assert [s[0]] + s[1..] == s;
    }
  }

  /** A character that needs escaping makes the encoding longer than the text. */
  lemma {:induction false} EncodeEscapedLonger(s: string, i: nat)
    requires i < |s| && (s[i] == '"' || s[i] == '\\' || s[i] < ' ')
    ensures |EncodeJsonBody(s)| > |s|
    decreases i
  {
    assert [s[0]] + s[1..] == s;
    EncodeJsonBodyCons(s[0], s[1..]);
    if i > 0 {
      assert s[1..][i - 1] == s[i];
      EncodeEscapedLonger(s[1..], i - 1);
    }
  }

  /** Text without quotes is encoded without quotes. */
  lemma {:induction false} EncodeKeepsQuoteFree(s: string)
    requires forall i :: 0 <= i < |s| ==> s[i] != '"'
    ensures forall i :: 0 <= i < |EncodeJsonBody(s)| ==> EncodeJsonBody(s)[i] != '"'
    decreases |s|
  {
    if s != [] {
      assert forall i :: 0 <= i < |s[1..]| ==> s[1..][i] != '"' by {
        forall i | 0 <= i < |s[1..]| ensures s[1..][i] == s[i + 1] { }
      }
      EncodeKeepsQuoteFree(s[1..]);
      var e, rest := EscapeJsonChar(s[0]), EncodeJsonBody(s[1..]);
      assert [s[0]] + s[1..] == s;
      EncodeJsonBodyCons(s[0], s[1..]);
      forall i | 0 <= i < |e + rest| ensures (e + rest)[i] != '"' {
        if i >= |e| {
          assert (e + rest)[i] == rest[i - |e|];
        }
      }
    }
  }

  /**
   * `JSON.stringify` leaves text with nothing to escape alone, lengthens any
   * other text, and never introduces a quote into the body.
   */
  lemma EncodeJsonBodyShape(s: string)
    ensures NeedsNoEscape(s) ==> EncodeJsonBody(s) == s
    ensures !NeedsNoEscape(s) ==> |EncodeJsonBody(s)| > |s|
    ensures (forall i :: 0 <= i < |s| ==> s[i] != '"')
            ==> forall i :: 0 <= i < |EncodeJsonBody(s)| ==> EncodeJsonBody(s)[i] != '"'
  {
    if NeedsNoEscape(s) {
      EncodePlainText(s);
    } else {
      var i :| 0 <= i < |s| && !(s[i] != '"' && s[i] != '\\' && s[i] >= ' ');
      EncodeEscapedLonger(s, i);
    }
    if forall i :: 0 <= i < |s| ==> s[i] != '"' {
      EncodeKeepsQuoteFree(s);
    }
  }

  /** Removing the quotes of a stringified value removes the two around it and those in its body. */
  lemma StrippedStringify(v: string)
    ensures RemoveQuotes(Stringify(v)) == RemoveQuotes(EncodeJsonBody(v))
  {
    var body := EncodeJsonBody(v);
    var q := "\"";
    calc {
      RemoveQuotes(Stringify(v));
      == { assert Stringify(v) == (q + body) + q; RemoveQuotesConcat(q + body, q); }
      RemoveQuotes(q + body) + RemoveQuotes(q);
      == { RemoveQuotesConcat(q, body); }
      (RemoveQuotes(q) + RemoveQuotes(body)) + RemoveQuotes(q);
      == { RemoveQuotesChar('"'); }
      RemoveQuotes(body);
    }
  }

  /**
   * What the field shows after the user types `v`: the input stores
   * `JSON.stringify(v)` and the display removes the quotes. That gives back
   * `v` exactly when `v` holds nothing `JSON.stringify` escapes.
   */
  lemma {:induction false} TypedValueShownIff(settings: seq<Setting>, key: string, v: string)
    requires HasKey(settings, key)
    ensures GetSettingValue(UpdateSetting(settings, key, JString(Stringify(v))), key) == JString(v)
            <==> NeedsNoEscape(v)
  {
    GetAfterUpdate(settings, key, Stringify(v));
    var body := EncodeJsonBody(v);
    StrippedStringify(v);
    EncodeJsonBodyShape(v);
    if NeedsNoEscape(v) {
      assert RemoveQuotes(body) == v;
    } else if forall i :: 0 <= i < |v| ==> v[i] != '"' {
      assert RemoveQuotes(body) == body;
      assert |RemoveQuotes(body)| != |v|;
    } else {
      var i :| 0 <= i < |v| && v[i] == '"';
    }
  }

  lemma StripStringifiedQuote()
    ensures RemoveQuotes(Stringify("\"")) == "\\"
  {
    var q := "\"";
    assert EncodeJsonBody(q) == EscapeJsonChar('"') + EncodeJsonBody([]);
    var t := Stringify(q);
    assert t == ['"'] + (['\\'] + (['"'] + ['"']));
    RemoveQuotesConcat(['"'], ['\\'] + (['"'] + ['"']));
    RemoveQuotesConcat(['\\'], ['"'] + ['"']);
    RemoveQuotesConcat(['"'], ['"']);
  }

  lemma StripStringifiedBackslash()
    ensures RemoveQuotes(Stringify("\\")) == "\\\\"
  {
    var b := "\\";
    assert EncodeJsonBody(b) == EscapeJsonChar('\\') + EncodeJsonBody([]);
    var t := Stringify(b);
    assert t == ['"'] + (['\\'] + (['\\'] + ['"']));
    RemoveQuotesConcat(['"'], ['\\'] + (['\\'] + ['"']));
    RemoveQuotesConcat(['\\'], ['\\'] + ['"']);
    RemoveQuotesConcat(['\\'], ['"']);
  }

  /** Typing a quote shows a backslash instead. */
  lemma QuoteShownAsBackslash(settings: seq<Setting>, key: string)
    requires HasKey(settings, key)
    ensures GetSettingValue(UpdateSetting(settings, key, JString(Stringify("\""))), key) == JString("\\")
  {
    GetAfterUpdate(settings, key, Stringify("\""));
    StripStringifiedQuote();
  }

  /** Typing a backslash shows two. */
  lemma BackslashDoubles(settings: seq<Setting>, key: string)
    requires HasKey(settings, key)
    ensures GetSettingValue(UpdateSetting(settings, key, JString(Stringify("\\"))), key) == JString("\\\\")
  {
    GetAfterUpdate(settings, key, Stringify("\\"));
    StripStringifiedBackslash();
  }

  /** A run of `n` backslashes. */
  function Backslashes(n: nat): (r: string)
    ensures |r| == n
  {
    if n == 0 then [] else ['\\'] + Backslashes(n - 1)
  }

  /** Every character of the run is a backslash. */
  lemma {:induction false} BackslashesOnly(n: nat)
    ensures forall i :: 0 <= i < n ==> Backslashes(n)[i] == '\\'
    decreases n
  {
    if n > 0 {
      BackslashesOnly(n - 1);
    }
  }

  lemma ConcatAssoc(x: string, y: string, z: string)
    ensures (x + y) + z == x + (y + z)
  {
  }

  lemma EncodeJsonBodyCons(c: char, s: string)
    ensures EncodeJsonBody([c] + s) == EscapeJsonChar(c) + EncodeJsonBody(s)
  {
    assert ([c] + s)[0] == c && ([c] + s)[1..] == s;
  }

  /** A run of backslashes in front of any text: each of them becomes two. */
  lemma {:induction false} EncodeBackslashesThen(n: nat, rest: string)
    ensures EncodeJsonBody(Backslashes(n) + rest) == Backslashes(2 * n) + EncodeJsonBody(rest)
    decreases n
  {
    if n == 0 {
      assert Backslashes(0) + rest == rest;
    } else {
      var r, x, e := Backslashes(n - 1), Backslashes(2 * (n - 1)), EncodeJsonBody(rest);
      EncodeBackslashesThen(n - 1, rest);
      EncodeOneBackslash(r, rest);
      BackslashesUnfold(n);
      ConcatAssoc(['\\', '\\'], x, e);
    }
  }

  lemma BackslashesUnfold(n: nat)
    requires n > 0
    ensures Backslashes(n) == ['\\'] + Backslashes(n - 1)
    ensures Backslashes(2 * n) == ['\\', '\\'] + Backslashes(2 * (n - 1))
  {
    assert Backslashes(2 * n) == ['\\'] + (['\\'] + Backslashes(2 * n - 2));
  }

  /** Peeling one backslash off the front of the run. */
  lemma EncodeOneBackslash(r: string, rest: string)
    ensures EncodeJsonBody((['\\'] + r) + rest) == ['\\', '\\'] + EncodeJsonBody(r + rest)
  {
    ConcatAssoc(['\\'], r, rest);
    EncodeJsonBodyCons('\\', r + rest);
  }

  /**
   * Each keystroke doubles every backslash the field shows. The field shows
   * `n` backslashes followed by text with nothing to escape; the user types a
   * character at the end, so the input holds the shown text plus that
   * character; and the field then shows `2 * n` backslashes followed by the
   * rest. Applied again to what is now shown, the run doubles once more.
   */
  lemma BackslashesDoubleEachKeystroke(settings: seq<Setting>, key: string, n: nat, rest: string)
    requires HasKey(settings, key) && NeedsNoEscape(rest)
    ensures GetSettingValue(UpdateSetting(settings, key, JString(Stringify(Backslashes(n) + rest))), key)
            == JString(Backslashes(2 * n) + rest)
  {
    var v, w := Backslashes(n) + rest, Backslashes(2 * n);
    GetAfterUpdate(settings, key, Stringify(v));
    calc {
      RemoveQuotes(Stringify(v));
      == { StrippedStringify(v); }
      RemoveQuotes(EncodeJsonBody(v));
      == { EncodeBackslashesThen(n, rest); EncodePlainText(rest); }
      RemoveQuotes(w + rest);
      == { RemoveQuotesConcat(w, rest); }
      RemoveQuotes(w) + RemoveQuotes(rest);
      == { BackslashesOnly(2 * n); }
      w + rest;
    }
  }

  // ---------------------------------------------------------------------------
  // The display read back with the JSON string decoding the store format implies

  function HexValue(c: char): (r: Option<nat>)
    ensures r.Some? ==> r.value < 16
  {
    if '0' <= c <= '9' then Some(c as int - '0' as int)
    else if 'a' <= c <= 'f' then Some(c as int - 'a' as int + 10)
    else if 'A' <= c <= 'F' then Some(c as int - 'A' as int + 10)
    else None
  }

  lemma HexRoundTrip(n: nat)
    requires n < 16
    ensures HexValue(Hex[n]) == Some(n)
  {
  }

  function Cons(c: char, r: Option<string>): Option<string>
  {
    if r.Some? then Some([c] + r.value) else None
  }

  /** The code point of `\uXXXX`, when the four characters are hex digits. */
  function Hex4(s: string): (r: Option<nat>)
    requires |s| == 4
    ensures r.Some? ==> r.value < 0x1_0000
  {
    var a, b, c, d := HexValue(s[0]), HexValue(s[1]), HexValue(s[2]), HexValue(s[3]);
    if a.Some? && b.Some? && c.Some? && d.Some?
    then Some(((a.value * 16 + b.value) * 16 + c.value) * 16 + d.value)
    else None
  }

  /** The text between the quotes of a JSON string literal, decoded; `None` when malformed. */
  function DecodeJsonBody(s: string): Option<string>
    decreases |s|
  {
    if s == [] then Some([])
    else if s[0] == '\\' then
      if |s| < 2 then None
      else if s[1] == '"' || s[1] == '\\' || s[1] == '/' then Cons(s[1], DecodeJsonBody(s[2..]))
      else if s[1] == 'b' then Cons('\U{0008}', DecodeJsonBody(s[2..]))
      else if s[1] == 't' then Cons('\t', DecodeJsonBody(s[2..]))
      else if s[1] == 'n' then Cons('\n', DecodeJsonBody(s[2..]))
      else if s[1] == 'f' then Cons('\U{000C}', DecodeJsonBody(s[2..]))
      else if s[1] == 'r' then Cons('\r', DecodeJsonBody(s[2..]))
      else if s[1] == 'u' && |s| >= 6 then
        match Hex4(s[2..6])
        case Some(n) =>
          if 0xD800 <= n < 0xE000 then None else Cons(n as char, DecodeJsonBody(s[6..]))
        case None => None
      else None
    else if s[0] == '"' || s[0] < ' ' then None
    else Cons(s[0], DecodeJsonBody(s[1..]))
  }

  /** `JSON.parse` of a string literal. */
  function ParseJsonString(t: string): Option<string>
  {
    if |t| >= 2 && t[0] == '"' && t[|t| - 1] == '"' then DecodeJsonBody(t[1..|t| - 1]) else None
  }

  /** A two-character escape decodes back to its character. */
  lemma DecodeShortEscape(c: char, rest: string)
    requires c == '"' || c == '\\' || c == '\U{0008}' || c == '\t' || c == '\n' || c == '\U{000C}' || c == '\r'
    ensures DecodeJsonBody(EscapeJsonChar(c) + rest) == Cons(c, DecodeJsonBody(rest))
  {
    var s := EscapeJsonChar(c) + rest;
    assert |EscapeJsonChar(c)| == 2;
    assert s[2..] == rest;
  }

  /** Two hex digits after `00` give the value they spell. */
  lemma Hex4OfByte(hi: nat, lo: nat)
    requires hi < 16 && lo < 16
    ensures Hex4(['0', '0', Hex[hi], Hex[lo]]) == Some(hi * 16 + lo)
  {
    HexRoundTrip(hi);
    HexRoundTrip(lo);
  }

  /** A `\u` escape of a code point below the surrogates decodes to that code point. */
  lemma DecodeUnicodeStep(s: string, n: nat)
    requires |s| >= 6 && s[0] == '\\' && s[1] == 'u'
    requires Hex4(s[2..6]) == Some(n) && n < 0xD800
    ensures DecodeJsonBody(s) == Cons(n as char, DecodeJsonBody(s[6..]))
  {
  }

  /** A `\u00XX` escape decodes back to its control character. */
  lemma DecodeUnicodeEscape(c: char, rest: string)
    requires c < ' ' && c != '\U{0008}' && c != '\t' && c != '\n' && c != '\U{000C}' && c != '\r'
    ensures DecodeJsonBody(EscapeJsonChar(c) + rest) == Cons(c, DecodeJsonBody(rest))
  {
    var n := c as int;
    var hi, lo := n / 16, n % 16;
    var e := "\\u00" + [Hex[hi], Hex[lo]];
    assert EscapeJsonChar(c) == e;
    var s := e + rest;
    Hex4OfByte(hi, lo);
    assert s[2..6] == ['0', '0', Hex[hi], Hex[lo]];
    assert s[6..] == rest;
    DecodeUnicodeStep(s, n);
  }

  /** A character written as itself decodes as itself. */
  lemma DecodePlainChar(c: char, rest: string)
    requires c != '"' && c != '\\' && c >= ' '
    ensures DecodeJsonBody(EscapeJsonChar(c) + rest) == Cons(c, DecodeJsonBody(rest))
  {
    var s := [c] + rest;
    assert s[1..] == rest;
  }

  /** Every escape `JSON.stringify` writes decodes back to its character. */
  lemma DecodeEscapedChar(c: char, rest: string)
    ensures DecodeJsonBody(EscapeJsonChar(c) + rest) == Cons(c, DecodeJsonBody(rest))
  {
    if c == '"' || c == '\\' || c == '\U{0008}' || c == '\t' || c == '\n' || c == '\U{000C}' || c == '\r' {
      DecodeShortEscape(c, rest);
    } else if c < ' ' {
      DecodeUnicodeEscape(c, rest);
    } else {
      DecodePlainChar(c, rest);
    }
  }

  lemma {:induction false} DecodeEncode(s: string)
    ensures DecodeJsonBody(EncodeJsonBody(s)) == Some(s)
    decreases |s|
  {
    if s != [] {
      DecodeEncode(s[1..]);
      DecodeEscapedChar(s[0], EncodeJsonBody(s[1..]));
      assert [s[0]] + s[1..] == s;
    }
  }

  /** `JSON.parse` undoes `JSON.stringify` for every string. */
  lemma ParseStringify(s: string)
    ensures ParseJsonString(Stringify(s)) == Some(s)
  {
    var t := Stringify(s);
    assert t[1..|t| - 1] == EncodeJsonBody(s);
    DecodeEncode(s);
  }

  /**
   * The display with the stored text decoded as the JSON string literal it
   * is; a value that is no literal is shown as the quote-stripping read does.
   */
  function DisplayValue(settings: seq<Setting>, key: string): (r: Json)
    ensures !HasKey(settings, key) ==> r == JString("")
  {
    match FindIndex(settings, key)
    case None => JString("")
    case Some(i) =>
      match settings[i].value
      case JString(s) =>
        (match ParseJsonString(s)
         case Some(t) => JString(t)
         case None => JString(RemoveQuotes(s)))
      case JOther(_) => settings[i].value
  }

  /** With the decoding read, whatever the user types is what the field shows. */
  lemma TypedValueShown(settings: seq<Setting>, key: string, v: string)
    requires HasKey(settings, key)
    ensures DisplayValue(UpdateSetting(settings, key, JString(Stringify(v))), key) == JString(v)
  {
    UpdateKeepsFirst(settings, key, JString(Stringify(v)), FindIndex(settings, key).value);
    ParseStringify(v);
  }

  /** For a stored string free of escapes and quotes the two reads agree. */
  lemma DisplayAgreesOnPlainText(settings: seq<Setting>, key: string, v: string)
    requires HasKey(settings, key) && NeedsNoEscape(v)
    ensures DisplayValue(UpdateSetting(settings, key, JString(Stringify(v))), key)
            == GetSettingValue(UpdateSetting(settings, key, JString(Stringify(v))), key)
  {
    TypedValueShown(settings, key, v);
    TypedValueShownIff(settings, key, v);
  }

  // ---------------------------------------------------------------------------
  // handleSave

  /** The store's table, keyed by `setting_key` (the upsert's conflict column). */
  type Remote = map<string, Setting>

  /** Whether the upsert with this index reports an error; a missing entry is a success. */
  function UpsertFails(fails: seq<bool>, i: nat): bool
  {
    i < |fails| && fails[i]
  }

  /** The upserts of `settings` in list order, each replacing the row with its key. */
  function UpsertAllSpec(remote: Remote, settings: seq<Setting>): (r: Remote)
    ensures forall i :: 0 <= i < |settings| ==> settings[i].key in r
    ensures forall k :: k in remote ==> k in r
    decreases |settings|
  {
    if settings == [] then remote
    else
      var last := settings[|settings| - 1];
      UpsertAllSpec(remote, settings[..|settings| - 1])[last.key := last]
  }

  /** The index of the first failing upsert, or the length when none fails. */
  function FirstFailure(fails: seq<bool>, n: nat): (k: nat)
    ensures k <= n
    ensures forall i :: 0 <= i < k ==> !UpsertFails(fails, i)
    ensures k < n ==> UpsertFails(fails, k)
    decreases n
  {
    if n == 0 then 0
    else
      var k := FirstFailure(fails, n - 1);
      if k < n - 1 then k else if UpsertFails(fails, n - 1) then n - 1 else n
  }

  /**
   * The save loop: upsert each setting in order and stop at the first error.
   * Returns the new table and whether every upsert went through.
   */
  method UpsertAll(remote: Remote, settings: seq<Setting>, fails: seq<bool>) returns (r: Remote, ok: bool)
    ensures ok <==> FirstFailure(fails, |settings|) == |settings|
    ensures r == UpsertAllSpec(remote, settings[..FirstFailure(fails, |settings|)])
  {
    r := remote;
    var i := 0;
    while i < |settings| && !UpsertFails(fails, i)
      invariant 0 <= i <= |settings|
      invariant forall j :: 0 <= j < i ==> !UpsertFails(fails, j)
      invariant r == UpsertAllSpec(remote, settings[..i])
    {
      assert settings[..i + 1][..i] == settings[..i];
      r := r[settings[i].key := settings[i]];
      i := i + 1;
    }
    FirstFailureIs(fails, |settings|, i);
    ok := i == |settings|;
  }

  lemma FirstFailureIs(fails: seq<bool>, n: nat, i: nat)
    requires i <= n
    requires forall j :: 0 <= j < i ==> !UpsertFails(fails, j)
    requires i < n ==> UpsertFails(fails, i)
    ensures FirstFailure(fails, n) == i
  {
  }

  /** Every setting before the first failure is in the table as the editor held it. */
  lemma {:induction false} UpsertAllStored(remote: Remote, settings: seq<Setting>, i: nat)
    requires i < |settings|
    requires forall j :: i < j < |settings| ==> settings[j].key != settings[i].key
    ensures UpsertAllSpec(remote, settings)[settings[i].key] == settings[i]
    decreases |settings|
  {
    if i < |settings| - 1 {
      var init := settings[..|settings| - 1];
      assert forall j :: i < j < |init| ==> init[j] == settings[j];
      UpsertAllStored(remote, init, i);
    }
  }

  /** Keys that no setting names keep their rows. */
  lemma {:induction false} UpsertAllKeepsOthers(remote: Remote, settings: seq<Setting>, k: string)
    requires k in remote
    requires forall j :: 0 <= j < |settings| ==> settings[j].key != k
    ensures UpsertAllSpec(remote, settings)[k] == remote[k]
    decreases |settings|
  {
    if settings != [] {
      UpsertAllKeepsOthers(remote, settings[..|settings| - 1], k);
    }
  }

  /** What the settings query gave back: an error, or the rows (`null` when absent). */
  datatype LoadReply = LoadError | Loaded(data: Option<seq<Setting>>)

  class SettingsEditor {
    var settings: seq<Setting>
    var loading: bool
    var saving: bool

    constructor()
      ensures settings == [] && loading && !saving
    {
      settings := [];
      loading := true;
      saving := false;
    }

    /** `loadSettings`: take the rows (none when null) on success, keep the list on error, stop loading. */
    method LoadSettings(reply: LoadReply)
      modifies this
      ensures settings == match reply
                          case LoadError => old(settings)
                          case Loaded(None) => []
                          case Loaded(Some(rows)) => rows
      ensures !loading && saving == old(saving)
    {
      match reply {
        case LoadError =>
        case Loaded(data) =>
          settings := if data.Some? then data.value else [];
      }
      loading := false;
    }

    /** `updateSetting` on the editor's list. */
    method Update(key: string, value: Json)
      modifies this
      ensures settings == UpdateSetting(old(settings), key, value)
      ensures loading == old(loading) && saving == old(saving)
    {
      settings := UpdateSetting(settings, key, value);
    }

    /** A text input's `onChange`: the typed text is stored as `JSON.stringify(text)`. */
    method OnInput(key: string, text: string)
      modifies this
      ensures settings == UpdateSetting(old(settings), key, JString(Stringify(text)))
      ensures loading == old(loading) && saving == old(saving)
    {
      Update(key, JString(Stringify(text)));
    }

    /** `handleSave`: upsert every setting in order, stop at the first error, and clear `saving`. */
    method HandleSave(remote: Remote, fails: seq<bool>) returns (newRemote: Remote, ok: bool)
      modifies this
      ensures ok <==> FirstFailure(fails, |settings|) == |settings|
      ensures newRemote == UpsertAllSpec(remote, settings[..FirstFailure(fails, |settings|)])
      ensures settings == old(settings) && loading == old(loading) && !saving
    {
      saving := true;
      newRemote, ok := UpsertAll(remote, settings, fails);
      saving := false;
    }
  }
}
