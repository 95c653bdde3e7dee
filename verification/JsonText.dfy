/**
  What the writer of the sidecar writes, and that the reader reads it back: for every text
  laid out like a JSON document, with any white space in the places the writer puts some,
  the reader gives the document and leaves what follows.
*/
module JsonText {
  import opened Common
  import opened Json

  // ---------- strings ----------

  function LowerHex(d: nat): char
    requires d < 16
  {
    if d < 10 then ('0' as int + d) as char else ('a' as int + d - 10) as char
  }

  /** One byte as the writer escapes it. */
  function Escape(c: char): string {
    if c == '"' then "\\\""
    else if c == '\\' then "\\\\"
    else if c == '\n' then "\\n"
    else if c == '\r' then "\\r"
    else if c == '\t' then "\\t"
    else if c < ' ' then ['\\', 'u', '0', '0', LowerHex(c as nat / 16), LowerHex(c as nat % 16)]
    else [c]
  }

  function EscapeAll(s: string): string {
    if s == "" then "" else Escape(s[0]) + EscapeAll(s[1..])
  }

  /** A C string up to its terminating NUL. */
  function CString(s: string): string {
    if s == "" || s[0] == '\0' then "" else [s[0]] + CString(s[1..])
  }

  predicate NulFree(s: string) {
    forall i :: 0 <= i < |s| ==> s[i] != '\0'
  }

  lemma {:induction false} CStringOfNulFree(s: string)
    requires NulFree(s)
    ensures CString(s) == s
  {
    if s == "" {
    } else {
      CStringOfNulFree(s[1..]);
      assert [s[0]] + s[1..] == s;
    }
  }

  lemma {:induction false} CStringIsNulFree(s: string)
    ensures NulFree(CString(s)) && |CString(s)| <= |s|
  {
    if s != "" && s[0] != '\0' {
      CStringIsNulFree(s[1..]);
    }
  }

  function Quoted(s: string): string {
    "\"" + EscapeAll(s) + "\""
  }

  /** `jstr`: quotes and escapes up to the NUL, byte by byte. */
  method JStr(s: string) returns (o: string)
    ensures o == Quoted(CString(s))
  {
    o := "\"";
    var q := 0;
    while q < |s| && s[q] != '\0'
      invariant 0 <= q <= |s|
      invariant o + EscapeAll(CString(s[q..])) == "\"" + EscapeAll(CString(s))
      decreases |s| - q
    {
      assert s[q..][1..] == s[q + 1..];
      EscapeAllStep(o, s[q], CString(s[q + 1..]));
      o := o + Escape(s[q]);
      q := q + 1;
    }
    assert CString(s[q..]) == "";
    assert o + "" == o;
    o := o + "\"";
  }

  lemma EscapeAllStep(o: string, c: char, t: string)
    ensures o + EscapeAll([c] + t) == (o + Escape(c)) + EscapeAll(t)
  {
    assert ([c] + t)[1..] == t;
    hide Escape;
  }

  lemma HexOfLower(d: nat)
    requires d < 16
    ensures HexDigit(LowerHex(d)) == Some(d)
  {
  }

  lemma FourDigits(x: char, y: char)
    requires HexDigit(x).Some? && HexDigit(y).Some?
    ensures HexValue(['0', '0', x, y], 0) == Some(HexDigit(x).value * 16 + HexDigit(y).value)
  {
    ghost var s := ['0', '0', x, y];
    assert s[1..] == ['0', x, y] && s[1..][1..] == [x, y] && [x, y][1..] == [y] && [y][1..] == "";
    assert HexDigit('0') == Some(0);
    hide HexDigit;
    assert HexValue(s, 0) == HexValue(s[1..], 0);
    assert HexValue(s[1..], 0) == HexValue([x, y], 0);
    ghost var dx, dy := HexDigit(x).value, HexDigit(y).value;
    assert HexValue([x, y], 0) == HexValue([y], dx);
    assert HexValue([y], dx) == HexValue("", dx * 16 + dy);
  }

  /** Reading one escaped byte. */
  lemma ReadEscaped(c: char, t: string)
    ensures ReadStrBody(Escape(c) + t) == Prepend(c, ReadStrBody(t))
  {
    ghost var s := Escape(c) + t;
    if c == '"' || c == '\\' || c == '\n' || c == '\r' || c == '\t' {
      assert s[2..] == t;
    } else if c < ' ' {
      ghost var a, b := c as nat / 16, c as nat % 16;
      HexOfLower(a);
      HexOfLower(b);
      FourDigits(LowerHex(a), LowerHex(b));
      assert s[2..][..4] == ['0', '0', LowerHex(a), LowerHex(b)];
      assert Hex4(s[2..]) == Some(a * 16 + b);
      assert s[6..] == t;
      hide HexValue, LowerHex, HexDigit;
    } else {
      assert s[1..] == t;
    }
  }

  lemma {:induction false} ReadEscapedAll(s: string, rest: string)
    ensures ReadStrBody(EscapeAll(s) + ("\"" + rest)) == Some((s, rest))
  {
    hide Escape;
    if s == "" {
      assert EscapeAll(s) + ("\"" + rest) == "\"" + rest;
      assert ("\"" + rest)[1..] == rest;
    } else {
      ghost var t := EscapeAll(s[1..]) + ("\"" + rest);
      assert EscapeAll(s) + ("\"" + rest) == Escape(s[0]) + t;
      ReadEscapedAll(s[1..], rest);
      ReadEscaped(s[0], t);
      assert [s[0]] + s[1..] == s;
    }
  }

  /** Reading a quoted string gives the string back, whatever bytes it holds. */
  lemma ReadQuoted(s: string, rest: string)
    ensures ReadStr(Quoted(s) + rest) == Some((s, rest))
  {
    ghost var t := Quoted(s) + rest;
    assert t[0] == '"' && t[1..] == EscapeAll(s) + ("\"" + rest);
    ReadEscapedAll(s, rest);
    hide EscapeAll;
    assert SkipWs(t) == t;
  }

  // ---------- numbers ----------

  const WORD: nat := 0x1_0000_0000_0000_0000

  function HexText(v: nat): string {
    if v < 16 then [LowerHex(v)] else HexText(v / 16) + [LowerHex(v % 16)]
  }

  /** `jhex`: a 64-bit number as a quoted hex string. */
  function JHex(v: nat): string {
    "\"0x" + HexText(v) + "\""
  }

  predicate IsSpace(c: char) {
    IsWs(c) || c == '\U{000B}' || c == '\U{000C}'
  }

  function SkipSpace(s: string): (r: string)
    ensures |r| <= |s|
  {
    if s != "" && IsSpace(s[0]) then SkipSpace(s[1..]) else s
  }

  predicate DigitOf(c: char, base: nat) {
    HexDigit(c).Some? && HexDigit(c).value < base
  }

  /** The value of the longest run of digits of the base. */
  function DigitsValue(s: string, base: nat, acc: nat): nat {
    if s == "" || !DigitOf(s[0], base) then acc else DigitsValue(s[1..], base, acc * base + HexDigit(s[0]).value)
  }

  /** `strtoull(s, NULL, 0)`: white space, a sign, a base prefix, digits; too large becomes the largest word. */
  function StrToUll(s: string): nat {
    var t := SkipSpace(s);
    var negative := t != "" && t[0] == '-';
    var u := if t != "" && (t[0] == '-' || t[0] == '+') then t[1..] else t;
    var hex := |u| > 2 && u[0] == '0' && (u[1] == 'x' || u[1] == 'X') && DigitOf(u[2], 16);
    var v := if hex then DigitsValue(u[2..], 16, 0)
             else if u != "" && u[0] == '0' then DigitsValue(u, 8, 0)
             else DigitsValue(u, 10, 0);
    if v >= WORD then WORD - 1 else if negative then (WORD - v) % WORD else v
  }

  lemma {:induction false} HexTextReads(v: nat, tail: string, acc: nat)
    ensures DigitsValue(HexText(v) + tail, 16, 0) == DigitsValue(tail, 16, v)
    decreases v
  {
    if v < 16 {
      HexOfLower(v);
      ghost var s := HexText(v) + tail;
      assert s[0] == LowerHex(v) && s[1..] == tail;
    } else {
      HexOfLower(v % 16);
      ghost var s := [LowerHex(v % 16)] + tail;
      HexTextReads(v / 16, s, acc);
      assert HexText(v) + tail == HexText(v / 16) + s;
      assert s[1..] == tail;
    }
  }

  lemma {:induction false} HexTextIsDigits(v: nat)
    ensures HexText(v) != "" && DigitOf(HexText(v)[0], 16)
    decreases v
  {
    if v < 16 {
      HexOfLower(v);
    } else {
      HexTextIsDigits(v / 16);
    }
  }

  /** What `jhex` writes, `strtoull` reads. */
  lemma HexRoundTrip(v: nat)
    requires v < WORD
    ensures StrToUll("0x" + HexText(v)) == v
  {
    ghost var s := "0x" + HexText(v);
    HexTextIsDigits(v);
    assert s[2..] == HexText(v) + "";
    HexTextReads(v, "", 0);
    assert SkipSpace(s) == s;
    hide HexText, DigitOf;
    assert s[2] == HexText(v)[0];
  }

  lemma {:induction false} HexNeedsNoEscape(v: nat)
    ensures EscapeAll(HexText(v)) == HexText(v)
    decreases v
  {
    if v < 16 {
      assert HexText(v)[1..] == "";
    } else {
      HexNeedsNoEscape(v / 16);
      EscapePlain(HexText(v / 16), LowerHex(v % 16));
    }
  }

  lemma {:induction false} EscapePlain(s: string, c: char)
    requires EscapeAll(s) == s && Escape(c) == [c]
    ensures EscapeAll(s + [c]) == s + [c]
  {
    EscapeSplit(s, [c]);
    assert [c][1..] == "";
    assert EscapeAll([c]) == Escape(c) + EscapeAll("");
  }

  lemma {:induction false} EscapeSplit(s: string, t: string)
    ensures EscapeAll(s + t) == EscapeAll(s) + EscapeAll(t)
  {
    hide Escape;
    if s == "" {
      assert s + t == t;
    } else {
      assert (s + t)[1..] == s[1..] + t;
      EscapeSplit(s[1..], t);
    }
  }

  lemma JHexIsQuoted(v: nat)
    ensures JHex(v) == Quoted("0x" + HexText(v))
  {
    HexNeedsNoEscape(v);
    EscapeSplit("0x", HexText(v));
    assert "0x"[1..] == "x" && "x"[1..] == "";
    assert EscapeAll("x") == Escape('x') + EscapeAll("");
    assert EscapeAll("0x") == Escape('0') + EscapeAll("x");
    assert EscapeAll("0x") == "0x";
    hide EscapeAll, HexText;
  }

  // ---------- documents ----------

  /** A document with its layout: the white space before each part, and before the closing bracket. */
  datatype Doc =
    | DStr(s: string)
    | DNum(text: string, value: real)
    | DArr(items: seq<Item>, close: string)
    | DObj(members: seq<Member>, close: string)

  datatype Item = Item(lead: string, doc: Doc)

  datatype Member = Member(lead: string, key: string, doc: Doc)

  function Text(d: Doc): string
    decreases d, 1
  {
    match d
    case DStr(s) => Quoted(s)
    case DNum(text, _) => text
    case DArr(items, close) => "[" + ItemsText(items) + close + "]"
    case DObj(members, close) => "{" + MembersText(members) + close + "}"
  }

  function ItemText(it: Item): string
    decreases it, 0
  {
    it.lead + Text(it.doc)
  }

  function ItemsText(items: seq<Item>): string
    decreases items, 0
  {
    if items == [] then ""
    else ItemText(items[0]) + (if |items| > 1 then "," + ItemsText(items[1..]) else "")
  }

  function MemberText(mb: Member): string
    decreases mb, 0
  {
    mb.lead + Quoted(mb.key) + ": " + Text(mb.doc)
  }

  function MembersText(members: seq<Member>): string
    decreases members, 0
  {
    if members == [] then ""
    else MemberText(members[0]) + (if |members| > 1 then "," + MembersText(members[1..]) else "")
  }

  function ValueOf(d: Doc): JVal
    decreases d, 1
  {
    match d
    case DStr(s) => Str(s)
    case DNum(_, v) => Num(v)
    case DArr(items, _) => Arr(ItemValues(items))
    case DObj(members, _) => Obj(MemberValues(members))
  }

  function ItemValues(items: seq<Item>): seq<JVal>
    decreases items, 0
  {
    if items == [] then [] else [ValueOf(items[0].doc)] + ItemValues(items[1..])
  }

  function MemberValues(members: seq<Member>): seq<(string, JVal)>
    decreases members, 0
  {
    if members == [] then [] else [(members[0].key, ValueOf(members[0].doc))] + MemberValues(members[1..])
  }

  predicate AllWs(s: string) {
    forall i :: 0 <= i < |s| ==> IsWs(s[i])
  }

  /** What may come after a value: white space, a comma, a closing bracket, or nothing. */
  predicate Follows(rest: string) {
    rest == "" || IsWs(rest[0]) || rest[0] == ',' || rest[0] == ']' || rest[0] == '}'
  }

  predicate IsDecimal(s: string) {
    s != "" && forall i :: 0 <= i < |s| ==> '0' <= s[i] <= '9'
  }

  /** The library reads a decimal to its end, and whatever follows makes no difference. */
  ghost predicate ReadsDecimals(num: Strtod) {
    forall ds, rest :: IsDecimal(ds) && Follows(rest) ==> num(ds + rest) == (num(ds).0, |ds|)
  }

  /** The layout is white space, numbers are decimals, and the nesting stays below the limit. */
  ghost predicate WellLaid(num: Strtod, d: Doc, depth: nat)
    decreases d, 1
  {
    depth + 1 <= MAX_DEPTH &&
    match d
    case DStr(_) => true
    case DNum(text, v) => IsDecimal(text) && v == num(text).0
    case DArr(items, close) => AllWs(close) && ItemsLaid(num, items, depth + 1)
    case DObj(members, close) => AllWs(close) && MembersLaid(num, members, depth + 1)
  }

  ghost predicate ItemsLaid(num: Strtod, items: seq<Item>, depth: nat)
    decreases items, 0
  {
    items == [] || (AllWs(items[0].lead) && WellLaid(num, items[0].doc, depth) && ItemsLaid(num, items[1..], depth))
  }

  ghost predicate MembersLaid(num: Strtod, members: seq<Member>, depth: nat)
    decreases members, 0
  {
    members == [] || (AllWs(members[0].lead) && WellLaid(num, members[0].doc, depth) &&
        MembersLaid(num, members[1..], depth))
  }

  lemma {:induction false} SkipLead(lead: string, s: string)
    requires AllWs(lead)
    ensures SkipWs(lead + s) == SkipWs(s)
  {
    if lead == "" {
      assert lead + s == s;
    } else {
      assert (lead + s)[1..] == lead[1..] + s;
      SkipLead(lead[1..], s);
    }
  }

  lemma EatLead(lead: string, c: char, s: string)
    requires AllWs(lead) && !IsWs(c)
    ensures Eat(lead + ([c] + s), c) == Some(s)
    ensures forall x :: x != c ==> Eat(lead + ([c] + s), x) == None
  {
    SkipLead(lead, [c] + s);
    assert ([c] + s)[1..] == s;
  }

  lemma ValueAfterLead(num: Strtod, lead: string, s: string, depth: nat)
    requires AllWs(lead)
    ensures ReadValue(num, lead + s, depth) == ReadValue(num, s, depth)
  {
    SkipLead(lead, s);
    hide ReadMembers, ReadItems, ReadStr, ReadNumber, SkipWs;
  }

  lemma StrAfterLead(lead: string, s: string)
    requires AllWs(lead)
    ensures ReadStr(lead + s) == ReadStr(s)
  {
    SkipLead(lead, s);
  }

  /** Every document starts with a byte that is no white space. */
  lemma TextStarts(num: Strtod, d: Doc, depth: nat)
    requires WellLaid(num, d, depth)
    ensures Text(d) != "" && !IsWs(Text(d)[0]) && Text(d)[0] != ',' && Text(d)[0] != ']' && Text(d)[0] != '}' &&
            Text(d)[0] != ':'
  {
    hide EscapeAll;
  }

  lemma DigitIsPlain(c: char)
    requires '0' <= c <= '9'
    ensures !IsWs(c) && c != '"' && c != '{' && c != '[' && c != 't' && c != 'f' && c != 'n'
  {
  }

  lemma ReadDecimal(num: Strtod, text: string, rest: string, depth: nat)
    requires ReadsDecimals(num) && IsDecimal(text) && Follows(rest) && depth + 1 <= MAX_DEPTH
    ensures ReadValue(num, text + rest, depth) == Some((Num(num(text).0), rest))
  {
    ghost var s := text + rest;
    assert s[0] == text[0];
    DigitIsPlain(s[0]);
    assert SkipWs(s) == s;
    assert num(s) == (num(text).0, |text|);
    assert s[|text|..] == rest;
    hide ReadMembers, ReadItems, ReadStr, SkipWs;
  }

  lemma ReadDStr(num: Strtod, t: string, rest: string, depth: nat)
    requires depth + 1 <= MAX_DEPTH
    ensures ReadValue(num, Quoted(t) + rest, depth) == Some((Str(t), rest))
  {
    ReadQuoted(t, rest);
    ghost var s := Quoted(t) + rest;
    assert s[0] == '"' && SkipWs(s) == s;
    hide ReadStr, EscapeAll, ReadMembers, ReadItems, ReadNumber, SkipWs;
  }

  lemma BracketsRegroup(d: Doc, rest: string)
    ensures d.DArr? ==> Text(d) + rest == "[" + (ItemsText(d.items) + (d.close + ("]" + rest)))
    ensures d.DObj? ==> Text(d) + rest == "{" + (MembersText(d.members) + (d.close + ("}" + rest)))
  {
    hide ItemsText, MembersText;
  }

  /** Reading a document's text gives the document and leaves what follows. */
  lemma {:induction false} ReadsBack(num: Strtod, d: Doc, rest: string, depth: nat)
    requires ReadsDecimals(num) && WellLaid(num, d, depth) && Follows(rest)
    ensures ReadValue(num, Text(d) + rest, depth) == Some((ValueOf(d), rest))
    decreases d, 1
  {
    hide ReadValue, ReadsDecimals, ItemsText, MembersText, ItemValues, MemberValues, EscapeAll, AllWs, Follows,
         ItemsLaid, MembersLaid;
    BracketsRegroup(d, rest);
    match d
    case DStr(s) =>
      ReadDStr(num, s, rest, depth);
    case DNum(text, v) =>
      ReadDecimal(num, text, rest, depth);
    case DArr(items, close) =>
      if items != [] {
        ItemsReadBack(num, items, close, rest, depth + 1, []);
        assert [] + ItemValues(items) == ItemValues(items);
      }
      OpensArray(num, items, close, rest, depth);
    case DObj(members, close) =>
      if members != [] {
        MembersReadBack(num, members, close, rest, depth + 1, []);
        assert [] + MemberValues(members) == MemberValues(members);
      }
      OpensObject(num, members, close, rest, depth);
  }

  lemma OpensArray(num: Strtod, items: seq<Item>, close: string, rest: string, depth: nat)
    requires depth + 1 <= MAX_DEPTH && AllWs(close) && ItemsLaid(num, items, depth + 1)
    requires var t := ItemsText(items) + (close + ("]" + rest));
             items != [] ==> ReadItems(num, t, depth + 1, []) == Some((Arr(ItemValues(items)), rest))
    ensures ReadValue(num, "[" + (ItemsText(items) + (close + ("]" + rest))), depth) ==
            Some((Arr(ItemValues(items)), rest))
  {
    ghost var t := ItemsText(items) + (close + ("]" + rest));
    ghost var s := "[" + t;
    assert s[0] == '[' && s[1..] == t && SkipWs(s) == s;
    if items == [] {
      assert t == close + ("]" + rest);
      EatLead(close, ']', rest);
    } else {
      ItemStarts(num, items, close + ("]" + rest), depth + 1);
    }
    hide SkipWs, ReadItems, ReadMembers, ReadStr, ReadNumber, ItemsText, ItemValues, Eat;
  }

  lemma ItemStarts(num: Strtod, items: seq<Item>, tail: string, depth: nat)
    requires items != [] && ItemsLaid(num, items, depth)
    ensures Eat(ItemsText(items) + tail, ']') == None
  {
    ghost var it := items[0];
    TextStarts(num, it.doc, depth);
    ghost var more := (if |items| > 1 then "," + ItemsText(items[1..]) else "") + tail;
    assert ItemsText(items) + tail == it.lead + (Text(it.doc) + more);
    SkipLead(it.lead, Text(it.doc) + more);
    hide Text, ItemsText;
  }

  lemma OpensObject(num: Strtod, members: seq<Member>, close: string, rest: string, depth: nat)
    requires depth + 1 <= MAX_DEPTH && AllWs(close) && MembersLaid(num, members, depth + 1)
    requires var t := MembersText(members) + (close + ("}" + rest));
             members != [] ==> ReadMembers(num, t, depth + 1, []) == Some((Obj(MemberValues(members)), rest))
    ensures ReadValue(num, "{" + (MembersText(members) + (close + ("}" + rest))), depth) ==
            Some((Obj(MemberValues(members)), rest))
  {
    ghost var t := MembersText(members) + (close + ("}" + rest));
    ghost var s := "{" + t;
    assert s[0] == '{' && s[1..] == t && SkipWs(s) == s;
    if members == [] {
      assert t == close + ("}" + rest);
      EatLead(close, '}', rest);
    } else {
      MemberStarts(num, members, close + ("}" + rest), depth + 1);
    }
    hide SkipWs, ReadItems, ReadMembers, ReadStr, ReadNumber, MembersText, MemberValues, Eat;
  }

  lemma MemberStarts(num: Strtod, members: seq<Member>, tail: string, depth: nat)
    requires members != [] && MembersLaid(num, members, depth)
    ensures Eat(MembersText(members) + tail, '}') == None
  {
    ghost var mb := members[0];
    ghost var more := ": " + Text(mb.doc) + (if |members| > 1 then "," + MembersText(members[1..]) else "") + tail;
    assert MembersText(members) + tail == mb.lead + (Quoted(mb.key) + more);
    SkipLead(mb.lead, Quoted(mb.key) + more);
    hide Text, MembersText, EscapeAll;
    assert (Quoted(mb.key) + more)[0] == '"';
  }

  /** One element and what comes after it. */
  lemma ItemStep(num: Strtod, lead: string, text: string, more: string, v: JVal, depth: nat, acc: seq<JVal>)
    requires AllWs(lead) && ReadValue(num, text + more, depth) == Some((v, more))
    ensures ReadItems(num, lead + (text + more), depth, acc)
            == match Eat(more, ',')
               case Some(next) => ReadItems(num, next, depth, acc + [v])
               case None => match Eat(more, ']') case None => None case Some(r) => Some((Arr(acc + [v]), r))
  {
    ValueAfterLead(num, lead, text + more, depth);
    hide ReadValue, Eat;
  }

  /** One member and what comes after it. */
  lemma MemberStep(num: Strtod, lead: string, key: string, text: string, more: string, v: JVal, depth: nat,
          acc: seq<(string, JVal)>)
    requires AllWs(lead) && ReadValue(num, text + more, depth) == Some((v, more))
    ensures ReadMembers(num, lead + (Quoted(key) + ([':'] + (" " + (text + more)))), depth, acc)
            == match Eat(more, ',')
               case Some(next) => ReadMembers(num, next, depth, acc + [(key, v)])
               case None => match Eat(more, '}') case None => None case Some(r) => Some((Obj(acc + [(key, v)]), r))
  {
    ghost var body := " " + (text + more);
    ghost var s1 := [':'] + body;
    StrAfterLead(lead, Quoted(key) + s1);
    ReadQuoted(key, s1);
    EatLead("", ':', body);
    assert "" + s1 == s1;
    ValueAfterLead(num, " ", text + more, depth);
    hide ReadValue, ReadStr, Eat, EscapeAll;
  }

  lemma EatFirst(c: char, s: string)
    requires !IsWs(c)
    ensures Eat([c] + s, c) == Some(s)
  {
    assert "" + ([c] + s) == [c] + s;
    EatLead("", c, s);
  }

  function MoreItems(items: seq<Item>, tail: string): string
    requires items != []
  {
    if |items| > 1 then [','] + (ItemsText(items[1..]) + tail) else tail
  }

  lemma ItemsSplit(items: seq<Item>, tail: string)
    requires items != []
    ensures ItemsText(items) + tail == items[0].lead + (Text(items[0].doc) + MoreItems(items, tail))
  {
    hide Text;
  }

  function MoreMembers(members: seq<Member>, tail: string): string
    requires members != []
  {
    if |members| > 1 then [','] + (MembersText(members[1..]) + tail) else tail
  }

  lemma MembersSplit(members: seq<Member>, tail: string)
    requires members != []
    ensures MembersText(members) + tail
            == members[0].lead + (Quoted(members[0].key) +
                ([':'] + (" " + (Text(members[0].doc) + MoreMembers(members, tail)))))
  {
    hide Text, EscapeAll;
  }

  lemma Regroup<T>(acc: seq<T>, x: T, rest: seq<T>)
    ensures (acc + [x]) + rest == acc + ([x] + rest)
    ensures rest == [] ==> acc + [x] == acc + ([x] + rest)
  {
  }

  lemma ValuesSplit(items: seq<Item>, acc: seq<JVal>)
    requires items != []
    ensures (acc + [ValueOf(items[0].doc)]) + ItemValues(items[1..]) == acc + ItemValues(items)
    ensures |items| == 1 ==> acc + [ValueOf(items[0].doc)] == acc + ItemValues(items)
  {
    hide ValueOf;
    ghost var rest := ItemValues(items[1..]);
    assert ItemValues(items) == [ValueOf(items[0].doc)] + rest;
    assert |items| == 1 ==> rest == [];
    hide ItemValues;
    Regroup(acc, ValueOf(items[0].doc), rest);
  }

  lemma PairsSplit(members: seq<Member>, acc: seq<(string, JVal)>)
    requires members != []
    ensures (acc + [(members[0].key, ValueOf(members[0].doc))]) + MemberValues(members[1..]) ==
            acc + MemberValues(members)
    ensures |members| == 1 ==> acc + [(members[0].key, ValueOf(members[0].doc))] == acc + MemberValues(members)
  {
    hide ValueOf;
    ghost var rest := MemberValues(members[1..]);
    assert MemberValues(members) == [(members[0].key, ValueOf(members[0].doc))] + rest;
    assert |members| == 1 ==> rest == [];
    hide MemberValues;
    Regroup(acc, (members[0].key, ValueOf(members[0].doc)), rest);
  }

  lemma CloseFollows(close: string, c: char, rest: string)
    requires AllWs(close) && (c == ']' || c == '}')
    ensures Follows(close + ([c] + rest)) && Eat(close + ([c] + rest), ',') == None &&
            Eat(close + ([c] + rest), c) == Some(rest)
  {
    EatLead(close, c, rest);
  }

  lemma {:induction false} ItemsReadBack(num: Strtod, items: seq<Item>, close: string, rest: string, depth: nat,
          acc: seq<JVal>)
    requires ReadsDecimals(num) && AllWs(close) && ItemsLaid(num, items, depth) && items != []
    ensures ReadItems(num, ItemsText(items) + (close + ("]" + rest)), depth, acc) ==
            Some((Arr(acc + ItemValues(items)), rest))
    decreases items, 0
  {
    ghost var it, tail := items[0], close + ("]" + rest);
    ghost var more := MoreItems(items, tail);
    CloseFollows(close, ']', rest);
    assert Follows(more);
    assert AllWs(it.lead) && WellLaid(num, it.doc, depth) && ItemsLaid(num, items[1..], depth);
    hide ReadValue, ReadItems, Eat, Text, ItemsText, ItemValues, WellLaid, ItemsLaid, Follows, AllWs, ReadsDecimals,
         ValueOf;
    ReadsBack(num, it.doc, more, depth);
    ItemsSplit(items, tail);
    ItemStep(num, it.lead, Text(it.doc), more, ValueOf(it.doc), depth, acc);
    ValuesSplit(items, acc);
    if |items| > 1 {
      EatFirst(',', ItemsText(items[1..]) + tail);
      ItemsReadBack(num, items[1..], close, rest, depth, acc + [ValueOf(it.doc)]);
    }
  }

  lemma {:induction false} MembersReadBack(num: Strtod, members: seq<Member>, close: string, rest: string, depth: nat,
          acc: seq<(string, JVal)>)
    requires ReadsDecimals(num) && AllWs(close) && MembersLaid(num, members, depth) && members != []
    ensures ReadMembers(num, MembersText(members) + (close + ("}" + rest)), depth, acc) ==
            Some((Obj(acc + MemberValues(members)), rest))
    decreases members, 0
  {
    ghost var mb, tail := members[0], close + ("}" + rest);
    ghost var more := MoreMembers(members, tail);
    CloseFollows(close, '}', rest);
    assert Follows(more);
    assert AllWs(mb.lead) && WellLaid(num, mb.doc, depth) && MembersLaid(num, members[1..], depth);
    hide ReadValue, ReadMembers, Eat, Text, MembersText, MemberValues, WellLaid, MembersLaid, Follows, AllWs,
         ReadsDecimals, ValueOf, EscapeAll;
    ReadsBack(num, mb.doc, more, depth);
    MembersSplit(members, tail);
    MemberStep(num, mb.lead, mb.key, Text(mb.doc), more, ValueOf(mb.doc), depth, acc);
    PairsSplit(members, acc);
    if |members| > 1 {
      EatFirst(',', MembersText(members[1..]) + tail);
      MembersReadBack(num, members[1..], close, rest, depth, acc + [(mb.key, ValueOf(mb.doc))]);
    }
  }
}
