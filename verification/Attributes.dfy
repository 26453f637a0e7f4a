/** The attribute lists of authentication headers (section 1.2 of RFC 2617), as
    src/talk/base/httpcommon.cc parses them, against its own quoting. */
module HttpAttributes {
  import opened HttpText
  import opened Buffers

  datatype Attribute = Attribute(name: string, value: string)

  // ----- What the parser reads, on the rest of the text -----

  /** Whether an attribute name ends here: an equal sign belongs to the name unless a value
      follows it. */
  predicate IsEndOfAttributeName(s: string) {
    || s == ""
    || IsSpace(s[0])
    || (|s| > 1 && s[0] == '=' && !IsSpace(s[1]) && s[1] != '=')
  }

  function NameEnd(s: string): (n: nat)
    ensures n <= |s|
    ensures IsEndOfAttributeName(s[n..])
    ensures forall k :: 0 <= k < n ==> !IsEndOfAttributeName(s[k..])
  {
    if IsEndOfAttributeName(s) then 0
    else
      var n := 1 + NameEnd(s[1..]);
      assert s[n..] == s[1..][n - 1..];
      assert forall k :: 0 < k < n ==> s[k..] == s[1..][k - 1..];
      n
  }

  /** A value and what is left after it. */
  datatype Taken = Taken(value: string, rest: string)

  /** A quoted value, from after its opening quote; a backslash protects the next character. */
  function Quoted(s: string): (r: Taken)
    ensures |r.rest| <= |s|
  {
    if s == "" then Taken("", "")
    else if s[0] == '"' then Taken("", s[1..])
    else if s[0] == '\\' && |s| > 1 then
      var r := Quoted(s[2..]);
      Taken([s[1]] + r.value, r.rest)
    else
      var r := Quoted(s[1..]);
      Taken([s[0]] + r.value, r.rest)
  }

  /** An unquoted value: all up to the first white space or comma. */
  function Plain(s: string): (r: Taken)
    ensures |r.rest| <= |s|
  {
    if s == "" || IsSpace(s[0]) || s[0] == ',' then Taken("", s)
    else
      var r := Plain(s[1..]);
      Taken([s[0]] + r.value, r.rest)
  }

  predicate PlainText(s: string) {
    forall k :: 0 <= k < |s| ==> !IsSpace(s[k]) && s[k] != ','
  }

  function Value(s: string): (r: Taken)
    ensures |r.rest| <= |s|
    ensures s != "" && s[0] == '=' ==> |r.rest| < |s|
  {
    if s == "" || s[0] != '=' then Taken("", s)
    else if |s| > 1 && s[1] == '"' then Quoted(s[2..])
    else Plain(s[1..])
  }

  function SkipComma(s: string): (r: string)
    ensures |r| <= |s|
  {
    if s != "" && s[0] == ',' then s[1..] else s
  }

  function SkipSpace(s: string): (r: string)
    ensures |r| <= |s|
    ensures r != "" ==> !IsSpace(r[0])
  {
    if s != "" && IsSpace(s[0]) then SkipSpace(s[1..]) else s
  }

  function AfterFirst(t: string): (r: string)
    requires t != "" && !IsSpace(t[0])
    ensures |r| < |t|
  {
    SkipComma(Value(t[NameEnd(t)..]).rest)
  }

  /** The attributes of a text. */
  function Parse(s: string): (r: seq<Attribute>)
    decreases |s|
  {
    var t := SkipSpace(s);
    if t == "" then [] else
    [Attribute(t[..NameEnd(t)], Value(t[NameEnd(t)..]).value)] + Parse(AfterFirst(t))
  }

  // ----- The parser -----

  method ScanSpace(data: string, from: nat) returns (pos: nat)
    requires from <= |data|
    ensures from <= pos <= |data| && data[pos..] == SkipSpace(data[from..])
  {
    pos := from;
    while pos < |data| && IsSpace(data[pos])
      invariant from <= pos <= |data| && SkipSpace(data[pos..]) == SkipSpace(data[from..])
    {
      assert data[pos..][1..] == data[pos + 1..];
      pos := pos + 1;
    }
  }

  lemma NameEndAt(data: string, pos: nat)
    requires pos <= |data|
    ensures IsEndOfAttributeName(data[pos..]) ==> NameEnd(data[pos..]) == 0
    ensures !IsEndOfAttributeName(data[pos..]) ==>
              pos < |data| && NameEnd(data[pos..]) == 1 + NameEnd(data[pos + 1..])
  {
    hide IsSpace;
    if pos < |data| {
      assert data[pos..][1..] == data[pos + 1..];
    }
  }

  method ScanName(data: string, start: nat) returns (pos: nat)
    requires start <= |data|
    ensures start <= pos <= |data| && pos - start == NameEnd(data[start..])
  {
    pos := start;
    hide NameEnd, IsSpace;
    while !IsEndOfAttributeName(data[pos..])
      invariant start <= pos <= |data| && pos - start + NameEnd(data[pos..]) == NameEnd(data[start..])
      decreases |data| - pos
    {
      NameEndAt(data, pos);
      pos := pos + 1;
    }
    NameEndAt(data, pos);
  }

  /** Where the character of a quoted value is that a step at pos takes. */
  function Protected(data: string, pos: nat): nat
    requires pos < |data|
  {
    if data[pos] == '\\' && pos + 1 < |data| then pos + 1 else pos
  }

  lemma QuotedAt(data: string, pos: nat)
    requires pos <= |data|
    ensures pos == |data| ==> Quoted(data[pos..]) == Taken("", data[pos..])
    ensures pos < |data| && data[pos] == '"' ==> Quoted(data[pos..]) == Taken("", data[pos + 1..])
    ensures pos < |data| && data[pos] != '"' ==>
        var p := Protected(data, pos);
        Quoted(data[pos..]) == Taken([data[p]] + Quoted(data[p + 1..]).value, Quoted(data[p + 1..]).rest)
  {
    if pos < |data| {
      assert data[pos..][1..] == data[pos + 1..];
    }
    if pos + 1 < |data| {
      assert data[pos..][2..] == data[pos + 2..];
    }
  }

  method ScanQuoted(data: string, quote: nat) returns (pos: nat, value: string)
    requires quote < |data|
    ensures quote < pos <= |data| && Taken(value, data[pos..]) == Quoted(data[quote + 1..])
  {
    hide Quoted;
    pos, value := quote + 1, "";
    while pos < |data|
      invariant quote < pos <= |data|
      invariant Quoted(data[quote + 1..]) == Taken(value + Quoted(data[pos..]).value, Quoted(data[pos..]).rest)
    {
      QuotedAt(data, pos);
      if data[pos] == '"' {
        pos := pos + 1;
        return;
      }
      if data[pos] == '\\' && pos + 1 < |data| {
        pos := pos + 1;
      }
      value := value + [data[pos]];
      pos := pos + 1;
    }
    QuotedAt(data, pos);
  }

  lemma PlainAt(data: string, pos: nat)
    requires pos <= |data|
    ensures pos == |data| || IsSpace(data[pos]) || data[pos] == ',' ==> Plain(data[pos..]) == Taken("", data[pos..])
    ensures !(pos == |data| || IsSpace(data[pos]) || data[pos] == ',') ==>
        Plain(data[pos..]) == Taken([data[pos]] + Plain(data[pos + 1..]).value, Plain(data[pos + 1..]).rest)
  {
    if pos < |data| {
      assert data[pos..][1..] == data[pos + 1..];
    }
  }

  method ScanPlain(data: string, from: nat) returns (pos: nat, value: string)
    requires from <= |data|
    ensures from <= pos <= |data| && Taken(value, data[pos..]) == Plain(data[from..])
  {
    hide Plain, IsSpace;
    pos, value := from, "";
    while pos < |data| && !IsSpace(data[pos]) && data[pos] != ','
      invariant from <= pos <= |data|
      invariant Plain(data[from..]) == Taken(value + Plain(data[pos..]).value, Plain(data[pos..]).rest)
    {
      PlainAt(data, pos);
      value := value + [data[pos]];
      pos := pos + 1;
    }
    PlainAt(data, pos);
  }

  method ScanValue(data: string, from: nat) returns (pos: nat, value: string)
    requires from <= |data|
    ensures from <= pos <= |data| && Taken(value, data[pos..]) == Value(data[from..])
  {
    hide Quoted, Plain;
    pos, value := from, "";
    if pos < |data| && data[pos] == '=' {
      pos := pos + 1;
      if pos < |data| && data[pos] == '"' {
        assert data[from..][2..] == data[pos + 1..];
        pos, value := ScanQuoted(data, pos);
      } else {
        assert data[from..][1..] == data[pos..];
        pos, value := ScanPlain(data, pos);
      }
    }
  }

  method HttpParseAttributes(data: string, attributes: seq<Attribute>) returns (all: seq<Attribute>)
    ensures all == attributes + Parse(data)
  {
    hide Parse, SkipSpace, NameEnd, Value, IsEndOfAttributeName;
    all := attributes;
    var pos := 0;
    assert data[pos..] == data;
    while true
      invariant pos <= |data| && all + Parse(data[pos..]) == attributes + Parse(data)
      decreases |data| - pos
    {
      ParseStep(data[pos..]);
      pos := ScanSpace(data, pos);
      if pos >= |data| {
        return;
      }
      ghost var t := data[pos..];
      var start := pos;
      pos := ScanName(data, pos);
      assert t[..NameEnd(t)] == data[start..pos] && t[NameEnd(t)..] == data[pos..];
      var name, value := data[start..pos], "";
      pos, value := ScanValue(data, pos);
      all := all + [Attribute(name, value)];
      if pos < |data| && data[pos] == ',' {
        assert data[pos..][1..] == data[pos + 1..];
        pos := pos + 1;
      }
      assert data[pos..] == AfterFirst(t);
    }
  }

  lemma ParseStep(s: string)
    ensures SkipSpace(s) == "" ==> Parse(s) == []
    ensures SkipSpace(s) != "" ==>
        var t := SkipSpace(s);
        Parse(s) == [Attribute(t[..NameEnd(t)], Value(t[NameEnd(t)..]).value)] + Parse(AfterFirst(t))
  {
  }

  // ----- Quoting -----

  function Escaped(s: string): string {
    if s == "" then ""
    else Escaped(s[..|s| - 1]) + Escape(s[|s| - 1])
  }

  method Quote(str: string) returns (result: string)
    ensures result == "\"" + Escaped(str) + "\""
  {
    result := "\"";
    var i := 0;
    while i < |str|
      invariant 0 <= i <= |str| && result == "\"" + Escaped(str[..i])
    {
      assert str[..i + 1][..i] == str[..i];
      if str[i] == '"' || str[i] == '\\' {
        result := result + "\\";
      }
      result := result + [str[i]];
      i := i + 1;
    }
    assert str[..i] == str;
    result := result + "\"";
  }

  /** A character as it stands in a quoted value. */
  function Escape(c: char): string {
    if c == '"' || c == '\\' then ['\\', c] else [c]
  }

  lemma {:induction false} EscapedFirst(s: string)
    requires s != ""
    ensures Escaped(s) == Escape(s[0]) + Escaped(s[1..])
  {
    hide Escape;
    if |s| > 1 {
      var (front, back, last) := (s[..|s| - 1], s[1..], Escape(s[|s| - 1]));
      EscapedFirst(front);
      assert front[1..] == back[..|back| - 1] && back[|back| - 1] == s[|s| - 1];
      assert Escaped(s) == Escaped(front) + last && Escaped(back) == Escaped(front[1..]) + last;
      hide Escaped;
      Added(Escape(s[0]), Escaped(front[1..]), last);
    } else {
      assert s[1..] == "" && s[..0] == "";
    }
  }

  lemma EscapeReadsBack(c: char, tail: string)
    ensures Quoted(Escape(c) + tail) == Taken([c] + Quoted(tail).value, Quoted(tail).rest)
  {
    if c == '"' || c == '\\' {
      assert (['\\', c] + tail)[2..] == tail;
    } else {
      assert ([c] + tail)[1..] == tail;
    }
  }

  lemma ClosingQuote(rest: string)
    ensures Quoted("\"" + rest) == Taken("", rest)
  {
    assert ("\"" + rest)[1..] == rest;
  }

  /** A quoted value reads back, whatever follows it. */
  lemma {:induction false} QuotedReadsBack(v: string, rest: string)
    ensures Quoted(Escaped(v) + ("\"" + rest)) == Taken(v, rest)
    decreases |v|
  {
    hide Quoted;
    if v == "" {
      ClosingQuote(rest);
      assert Escaped(v) + ("\"" + rest) == "\"" + rest;
    } else {
      hide Escaped, Escape;
      EscapedFirst(v);
      var tail := Escaped(v[1..]) + ("\"" + rest);
      QuotedReadsBack(v[1..], rest);
      EscapeReadsBack(v[0], tail);
      assert Escaped(v) + ("\"" + rest) == Escape(v[0]) + tail;
      assert [v[0]] + v[1..] == v;
    }
  }

  // ----- Lists of attributes -----

  function Item(a: Attribute): string {
    a.name + "=\"" + Escaped(a.value) + "\""
  }

  /** Items joined by a comma and a space. */
  function Compose(items: seq<Attribute>): string {
    if items == [] then ""
    else Item(items[0]) + (if |items| == 1 then "" else ", " + Compose(items[1..]))
  }

  /** A name the parser reads whole: no white space, equal signs only at its end. */
  predicate ReadsWhole(name: string) {
    && (forall k :: 0 <= k < |name| ==> !IsSpace(name[k]))
    && (forall k :: 0 <= k < |name| - 1 && name[k] == '=' ==> name[k + 1] == '=')
  }

  function AfterName(items: seq<Attribute>): string
    requires items != []
  {
    "=\"" + Escaped(items[0].value) + "\"" + Separated(items[1..])
  }

  function Separated(items: seq<Attribute>): string {
    if items == [] then "" else ", " + Compose(items)
  }

  lemma NameWhole(name: string, after: string)
    requires ReadsWhole(name) && |after| >= 2 && after[0] == '=' && after[1] == '"'
    ensures NameEnd(name + after) == |name| && SkipSpace(name + after) == name + after
  {
    hide NameEnd;
    var text := name + after;
    forall k | 0 <= k < |name|
      ensures !IsEndOfAttributeName(text[k..])
    {
      assert text[k..][0] == name[k];
      assert text[k..][1] == if k + 1 < |name| then name[k + 1] else '=';
    }
    assert text[|name|..] == after;
  }

  lemma {:induction false} SomethingLeft(s: string, k: nat)
    requires k < |s| && !IsSpace(s[k])
    ensures SkipSpace(s) != ""
    decreases k
  {
    if IsSpace(s[0]) {
      SomethingLeft(s[1..], k - 1);
    }
  }

  lemma NameCut(name: string, after: string)
    requires !ReadsWhole(name) && |after| >= 2 && after[0] == '=' && after[1] == '"'
    ensures var t := SkipSpace(name + after); t != "" && t[..NameEnd(t)] != name
  {
    hide NameEnd;
    var text := name + after;
    SomethingLeft(text, |name|);
    assert text[0] == name[0];
    if !IsSpace(name[0]) {
      if k :| 0 <= k < |name| && IsSpace(name[k]) {
        assert text[k..][0] == name[k];
        assert NameEnd(text) <= k;
      } else {
        var k :| 0 <= k < |name| - 1 && name[k] == '=' && name[k + 1] != '=';
        assert text[k..][0] == name[k] && text[k..][1] == name[k + 1];
        assert NameEnd(text) <= k;
      }
    }
  }

  lemma ValueReadsBack(items: seq<Attribute>)
    requires items != []
    ensures Value(AfterName(items)) == Taken(items[0].value, Separated(items[1..]))
  {
    hide Quoted, Escaped;
    var (v, rest) := (items[0].value, Separated(items[1..]));
    QuotedReadsBack(v, rest);
    assert AfterName(items)[2..] == Escaped(v) + ("\"" + rest);
  }

  lemma LeadingSpace(s: string)
    ensures Parse(" " + s) == Parse(s)
  {
    hide Value, NameEnd;
    assert (" " + s)[1..] == s;
  }

  lemma CommaSkipped(s: string)
    ensures SkipComma(", " + s) == " " + s
  {
    assert (", " + s)[1..] == " " + s;
  }

  lemma SeparatorSkipped(items: seq<Attribute>)
    ensures Parse(SkipComma(Separated(items))) == Parse(Compose(items))
  {
    hide Parse, SkipComma;
    if items == [] {
      NothingToSkip();
    } else {
      hide Compose;
      CommaSkipped(Compose(items));
      LeadingSpace(Compose(items));
    }
  }

  lemma NothingToSkip()
    ensures SkipComma("") == ""
  {
  }

  lemma ComposeSplits(items: seq<Attribute>)
    requires items != []
    ensures Compose(items) == items[0].name + AfterName(items)
  {
    var (name, value, others) := (items[0].name, Escaped(items[0].value), Separated(items[1..]));
    assert Compose(items) == Item(items[0]) + others;
    hide Escaped, Compose, Separated;
    Regroup(name, value, others);
  }

  lemma Regroup(name: string, value: string, others: string)
    ensures (name + "=\"" + value + "\"") + others == name + ("=\"" + value + "\"" + others)
  {
    assert (name + "=\"" + value + "\"") + others == name + ("=\"" + value + "\"" + others);
  }

  /** When the first name is read whole, the first attribute reads back and parsing goes on
      with the others. */
  lemma FirstReadsBack(items: seq<Attribute>)
    requires items != [] && ReadsWhole(items[0].name)
    ensures Parse(Compose(items)) == [items[0]] + Parse(Compose(items[1..]))
  {
    hide Parse, SkipSpace, NameEnd, Value, ReadsWhole, Compose, SkipComma;
    var (name, after) := (items[0].name, AfterName(items));
    var text := name + after;
    ComposeSplits(items);
    NameWhole(name, after);
    ParseStep(text);
    assert text[..|name|] == name && text[|name|..] == after;
    ValueReadsBack(items);
    SeparatorSkipped(items[1..]);
  }

  /** Composing a list of attributes and parsing the text gives the list back exactly when
      every name is one that the parser reads whole. */
  lemma {:induction false} ComposedParsesBackIff(items: seq<Attribute>)
    ensures Parse(Compose(items)) == items <==> forall i :: 0 <= i < |items| ==> ReadsWhole(items[i].name)
  {
    hide Parse, Compose, ReadsWhole, SkipSpace, NameEnd, Value;
    if items == [] {
      NothingToParse();
    } else if ReadsWhole(items[0].name) {
      FirstReadsBack(items);
      ComposedParsesBackIff(items[1..]);
      assert items == [items[0]] + items[1..];
      assert (forall i :: 0 <= i < |items| ==> ReadsWhole(items[i].name))
        <==> (forall i :: 0 <= i < |items| - 1 ==> ReadsWhole(items[1..][i].name)) by {
        forall i | 0 <= i < |items| - 1
          ensures items[1..][i] == items[i + 1]
        {
        }
      }
    } else {
      ComposeSplits(items);
      NameCut(items[0].name, AfterName(items));
      ParseStep(Compose(items));
      assert Parse(Compose(items))[0].name != items[0].name;
    }
  }

  lemma NothingToParse()
    ensures Parse(Compose([])) == []
  {
  }

  // ----- What other writers may send -----

  /** A value as it may stand between quotes: a backslash before every shielded character. */
  function Shielded(v: string, shield: seq<bool>): string
    requires |shield| == |v|
  {
    if v == "" then "" else (if shield[0] then ['\\', v[0]] else [v[0]]) + Shielded(v[1..], shield[1..])
  }

  /** However a value is written between quotes, so long as quotes and backslashes are shielded, it is
      read as it is, and without a closing quote to the end of the text. */
  lemma {:induction false} ShieldedReads(v: string, shield: seq<bool>, rest: string)
    requires |shield| == |v| && forall k :: 0 <= k < |v| && (v[k] == '"' || v[k] == '\\') ==> shield[k]
    ensures Quoted(Shielded(v, shield) + ("\"" + rest)) == Taken(v, rest)
    ensures Quoted(Shielded(v, shield)) == Taken(v, "")
    decreases |v|
  {
    hide Quoted;
    if v == "" {
      ClosingQuote(rest);
      NothingQuoted();
      assert Shielded(v, shield) + ("\"" + rest) == "\"" + rest;
    } else {
      ShieldedReads(v[1..], shield[1..], rest);
      var one := if shield[0] then ['\\', v[0]] else [v[0]];
      var more := Shielded(v[1..], shield[1..]);
      OneCharacter(v[0], shield[0], more);
      OneCharacter(v[0], shield[0], more + ("\"" + rest));
      assert Shielded(v, shield) + ("\"" + rest) == one + (more + ("\"" + rest));
      assert [v[0]] + v[1..] == v;
    }
  }

  lemma NothingQuoted()
    ensures Quoted("") == Taken("", "")
  {
  }

  lemma OneCharacter(c: char, shielded: bool, tail: string)
    requires c == '"' || c == '\\' ==> shielded
    ensures Quoted((if shielded then ['\\', c] else [c]) + tail) == Taken([c] + Quoted(tail).value, Quoted(tail).rest)
  {
    if shielded {
      assert (['\\', c] + tail)[2..] == tail;
    } else {
      assert ([c] + tail)[1..] == tail;
    }
  }

  /** A backslash that ends the text stands for itself. */
  lemma LastBackslash()
    ensures Quoted("\\") == Taken("\\", "")
  {
    assert "\\"[1..] == "";
  }

  lemma {:induction false} SkipSpaceIs(pre: string, rest: string)
    requires (forall k :: 0 <= k < |pre| ==> IsSpace(pre[k])) && (rest == "" || !IsSpace(rest[0]))
    ensures SkipSpace(pre + rest) == rest
  {
    if pre == "" {
      assert pre + rest == rest;
    } else {
      SkipSpaceIs(pre[1..], rest);
      assert (pre + rest)[1..] == pre[1..] + rest;
    }
  }

  /** An unquoted value is all up to the first white space or comma. */
  lemma {:induction false} PlainIs(token: string, rest: string)
    requires PlainText(token) && (rest == "" || IsSpace(rest[0]) || rest[0] == ',')
    ensures Plain(token + rest) == Taken(token, rest)
  {
    if token == "" {
      assert token + rest == rest;
    } else {
      PlainIs(token[1..], rest);
      assert (token + rest)[1..] == token[1..] + rest;
      assert [token[0]] + token[1..] == token;
    }
  }

  lemma NameEndIs(name: string, after: string)
    requires ReadsWhole(name) && name + after != ""
    requires || after == "" || (after != "" && IsSpace(after[0]))
             || (|after| > 1 && after[0] == '=' && !IsSpace(after[1]) && after[1] != '=')
    ensures NameEnd(name + after) == |name|
    ensures name != "" || after == "" || !IsSpace(after[0]) ==> SkipSpace(name + after) == name + after
  {
    hide NameEnd;
    var text := name + after;
    forall k | 0 <= k < |name|
      ensures !IsEndOfAttributeName(text[k..])
    {
      assert text[k..][0] == name[k];
      assert k + 1 < |name| ==> text[k..][1] == name[k + 1];
      assert k + 1 == |name| && after != "" ==> text[k..][1] == after[0];
    }
    assert text[|name|..] == after;
  }

  /** An attribute whose value is not quoted: the value goes up to white space or a comma. */
  lemma PlainReads(name: string, token: string, rest: string)
    requires ReadsWhole(name) && PlainText(token) && token != "" && token[0] != '"' && token[0] != '='
    requires rest == "" || IsSpace(rest[0]) || rest[0] == ','
    ensures Parse(name + ("=" + token + rest)) == [Attribute(name, token)] + Parse(SkipComma(rest))
  {
    hide Parse, SkipSpace, NameEnd, ReadsWhole, SkipComma, PlainText, IsEndOfAttributeName, Value;
    var after := "=" + token + rest;
    var text := name + after;
    PlainValue(token, rest);
    NameEndIs(name, after);
    ParseStep(text);
    assert text[..|name|] == name && text[|name|..] == after;
  }

  lemma PlainValue(token: string, rest: string)
    requires PlainText(token) && token != "" && token[0] != '"' && token[0] != '='
    requires rest == "" || IsSpace(rest[0]) || rest[0] == ','
    ensures var after := "=" + token + rest;
            after[1] == token[0] && !IsSpace(token[0]) && Value(after) == Taken(token, rest)
  {
    hide Plain;
    assert ("=" + token + rest)[1..] == token + rest;
    PlainIs(token, rest);
  }

  /** A word before white space or the end is an attribute without a value. */
  lemma BareReads(name: string, rest: string)
    requires ReadsWhole(name) && name != "" && (rest == "" || IsSpace(rest[0]))
    ensures Parse(name + rest) == [Attribute(name, "")] + Parse(rest)
  {
    hide Parse, SkipSpace, NameEnd, ReadsWhole, IsEndOfAttributeName;
    var text := name + rest;
    NameEndIs(name, rest);
    ParseStep(text);
    assert text[..|name|] == name && text[|name|..] == rest;
  }

  /** A whole challenge: the scheme comes out first, by itself, and then the parameters. */
  lemma ChallengeParses(scheme: string, items: seq<Attribute>)
    requires ReadsWhole(scheme) && scheme != ""
    requires forall i :: 0 <= i < |items| ==> ReadsWhole(items[i].name)
    ensures Parse(scheme + (" " + Compose(items))) == [Attribute(scheme, "")] + items
  {
    hide Parse, Compose, ReadsWhole;
    BareReads(scheme, " " + Compose(items));
    LeadingSpace(Compose(items));
    ComposedParsesBackIff(items);
  }
}
