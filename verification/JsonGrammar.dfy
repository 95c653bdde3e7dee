/**
  What the reader takes for JSON, as a grammar: a text is read as a value if and only if it
  is the text of a tree of that value, nested no deeper than the limit, and of what follows.
*/
module JsonGrammar {
  import opened Common
  import opened Json
  import J = JsonText

  // ---------- strings ----------

  /** One character of a string as it is written. */
  datatype Piece = Plain(c: char) | Short(x: char) | Point(digits: string)

  /** Section 7 of RFC 8259. */
  const ESCAPES: map<char, char> := map[
    '"' := '"', '\\' := '\\', '/' := '/', 'b' := '\U{0008}', 'f' := '\U{000C}', 'n' := '\n', 'r' := '\r', 't' := '\t']

  predicate IsHex(c: char) {
    '0' <= c <= '9' || 'a' <= c <= 'f' || 'A' <= c <= 'F'
  }

  function DigitOf(c: char): nat {
    if '0' <= c <= '9' then c as int - '0' as int
    else if 'A' <= c <= 'F' then c as int - 'A' as int + 10
    else if 'a' <= c <= 'f' then c as int - 'a' as int + 10
    else 0
  }

  function HexOf(digits: string): nat {
    if digits == "" then 0 else HexOf(digits[..|digits| - 1]) * 16 + DigitOf(digits[|digits| - 1])
  }

  predicate PieceOk(p: Piece) {
    match p
    case Plain(c) => c != '"' && c != '\\'
    case Short(x) => x in ESCAPES
    case Point(digits) => |digits| == 4 && forall i :: 0 <= i < |digits| ==> IsHex(digits[i])
  }

  function PieceText(p: Piece): string {
    match p
    case Plain(c) => [c]
    case Short(x) => ['\\', x]
    case Point(digits) => ['\\', 'u'] + digits
  }

  /** Its character; a code point beyond ASCII stands as a question mark. */
  function PieceChar(p: Piece): char {
    match p
    case Plain(c) => c
    case Short(x) => if x in ESCAPES then ESCAPES[x] else '?'
    case Point(digits) => if HexOf(digits) < 0x80 then HexOf(digits) as char else '?'
  }

  predicate PiecesOk(ps: seq<Piece>) {
    forall k :: 0 <= k < |ps| ==> PieceOk(ps[k])
  }

  /** The text of a string after its opening quote. */
  function Body(ps: seq<Piece>): string {
    if ps == [] then "\"" else PieceText(ps[0]) + Body(ps[1..])
  }

  function Chars(ps: seq<Piece>): string {
    if ps == [] then "" else [PieceChar(ps[0])] + Chars(ps[1..])
  }

  // ---------- values ----------

  /** A value as it is written, with the white space before it. */
  datatype Tree =
    | Word(lead: string, v: JVal)
    | Number(lead: string, text: string, n: real)
    | Quote(lead: string, pieces: seq<Piece>)
    | Array(lead: string, gap: string, items: seq<Item>)
    | Object(lead: string, gap: string, fields: seq<Field>)

  /** An element, and the white space before the comma or bracket that follows. */
  datatype Item = Item(tree: Tree, after: string)

  datatype Field = Field(lead: string, key: seq<Piece>, colon: string, tree: Tree, after: string)

  function WordText(v: JVal): string {
    match v
    case Null => "null"
    case Bool(b) => if b then "true" else "false"
    case _ => ""
  }

  function Flat(t: Tree): string {
    match t
    case Word(lead, v) => lead + WordText(v)
    case Number(lead, text, _) => lead + text
    case Quote(lead, pieces) => lead + ("\"" + Body(pieces))
    case Array(lead, gap, items) => lead + ("[" + if items == [] then gap + "]" else FlatItems(items))
    case Object(lead, gap, fields) => lead + ("{" + if fields == [] then gap + "}" else FlatFields(fields))
  }

  function FlatItems(items: seq<Item>): string {
    if items == [] then ""
    else Flat(items[0].tree) + (items[0].after + if |items| == 1 then "]" else "," + FlatItems(items[1..]))
  }

  function FlatFields(fields: seq<Field>): string {
    if fields == [] then ""
    else
      var f := fields[0];
      f.lead + ("\"" + (Body(f.key) + (f.colon + (":" + (Flat(f.tree)
      + (f.after + if |fields| == 1 then "}" else "," + FlatFields(fields[1..])))))))
  }

  /** Well written, when `rest` follows: of a number the library reads the whole text and no more. */
  predicate Written(num: Strtod, t: Tree, rest: string) {
    match t
    case Word(lead, v) => J.AllWs(lead) && (v.Null? || v.Bool?)
    case Number(lead, text, n) =>
      J.AllWs(lead) && text != "" && (text[0] == '-' || '0' <= text[0] <= '9') && num(text + rest) == (n, |text|)
    case Quote(lead, pieces) => J.AllWs(lead) && PiecesOk(pieces)
    case Array(lead, gap, items) => J.AllWs(lead) && J.AllWs(gap) && WrittenItems(num, items, rest)
    case Object(lead, gap, fields) => J.AllWs(lead) && J.AllWs(gap) && WrittenFields(num, fields, rest)
  }

  predicate WrittenItems(num: Strtod, items: seq<Item>, rest: string) {
    items == [] ||
    (var more := if |items| == 1 then "]" + rest else "," + (FlatItems(items[1..]) + rest);
     && J.AllWs(items[0].after) && Written(num, items[0].tree, items[0].after + more)
     && WrittenItems(num, items[1..], rest))
  }

  predicate WrittenFields(num: Strtod, fields: seq<Field>, rest: string) {
    fields == [] ||
    (var f, more := fields[0], if |fields| == 1 then "}" + rest else "," + (FlatFields(fields[1..]) + rest);
     && J.AllWs(f.lead) && PiecesOk(f.key) && J.AllWs(f.colon) && J.AllWs(f.after)
     && Written(num, f.tree, f.after + more) && WrittenFields(num, fields[1..], rest))
  }

  function Value(t: Tree): JVal {
    match t
    case Word(_, v) => v
    case Number(_, _, n) => Num(n)
    case Quote(_, pieces) => Str(Chars(pieces))
    case Array(_, _, items) => Arr(ItemValues(items))
    case Object(_, _, fields) => Obj(FieldValues(fields))
  }

  function ItemValues(items: seq<Item>): seq<JVal> {
    if items == [] then [] else [Value(items[0].tree)] + ItemValues(items[1..])
  }

  function FieldValues(fields: seq<Field>): seq<(string, JVal)> {
    if fields == [] then [] else [(Chars(fields[0].key), Value(fields[0].tree))] + FieldValues(fields[1..])
  }

  function Max(a: nat, b: nat): nat {
    if a < b then b else a
  }

  /** How deep the values are nested. */
  function Height(t: Tree): nat {
    match t
    case Array(_, _, items) => 1 + ItemsHeight(items)
    case Object(_, _, fields) => 1 + FieldsHeight(fields)
    case _ => 1
  }

  function ItemsHeight(items: seq<Item>): nat {
    if items == [] then 0 else Max(Height(items[0].tree), ItemsHeight(items[1..]))
  }

  function FieldsHeight(fields: seq<Field>): nat {
    if fields == [] then 0 else Max(Height(fields[0].tree), FieldsHeight(fields[1..]))
  }

  // ---------- what is read is written ----------

  function LeadOf(s: string): (r: string)
    ensures J.AllWs(r) && s == r + SkipWs(s)
  {
    if s != "" && IsWs(s[0]) then
      var r := [s[0]] + LeadOf(s[1..]);
      assert s == [s[0]] + s[1..];
      r
    else ""
  }

  lemma EatenIs(s: string, c: char)
    requires Eat(s, c).Some?
    ensures s == LeadOf(s) + ([c] + Eat(s, c).value) && J.AllWs(LeadOf(s))
  {
    ghost var t := SkipWs(s);
    assert t == [t[0]] + t[1..];
  }

  lemma HexDigitIs(c: char)
    ensures HexDigit(c) == if IsHex(c) then Some(DigitOf(c)) else None
  {
  }

  lemma {:induction false} HexValueIs(s: string, acc: nat)
    ensures HexValue(s, acc).Some? <==> forall i :: 0 <= i < |s| ==> IsHex(s[i])
  {
    if s == "" {
    } else {
      HexDigitIs(s[0]);
      if IsHex(s[0]) {
        HexValueIs(s[1..], acc * 16 + DigitOf(s[0]));
        if forall i :: 0 <= i < |s[1..]| ==> IsHex(s[1..][i]) {
          forall i | 0 <= i < |s| ensures IsHex(s[i]) {
            assert i > 0 ==> s[1..][i - 1] == s[i];
          }
        }
      }
    }
  }

  lemma FourDigits(s: string)
    requires |s| == 4 && forall i :: 0 <= i < |s| ==> IsHex(s[i])
    ensures HexValue(s, 0) == Some(HexOf(s))
  {
    HexDigitIs(s[0]);
    HexDigitIs(s[1]);
    HexDigitIs(s[2]);
    HexDigitIs(s[3]);
    ghost var a, b, c, d := DigitOf(s[0]), DigitOf(s[1]), DigitOf(s[2]), DigitOf(s[3]);
    assert s[1..][1..][1..][1..] == "";
    assert HexValue(s[1..][1..][1..], (a * 16 + b) * 16 + c) == Some(((a * 16 + b) * 16 + c) * 16 + d);
    assert HexValue(s[1..][1..], a * 16 + b) == Some(((a * 16 + b) * 16 + c) * 16 + d);
    assert HexValue(s[1..], a) == Some(((a * 16 + b) * 16 + c) * 16 + d);
    assert s[..3][..2][..1][..0] == "";
    assert HexOf(s[..3][..2][..1]) == a;
    assert HexOf(s[..3][..2]) == a * 16 + b;
    assert HexOf(s[..3]) == (a * 16 + b) * 16 + c;
  }

  /** The piece that a string's text begins with. */
  function FirstPiece(s: string): Option<Piece> {
    if s == "" || s[0] == '"' then None
    else if s[0] != '\\' then Some(Plain(s[0]))
    else if |s| < 2 then None
    else if s[1] == 'u' then
      if |s| >= 6 && Hex4(s[2..]).Some? then Some(Point(s[2..6])) else None
    else if s[1] in ESCAPES then Some(Short(s[1])) else None
  }

  lemma EscapesAre(x: char)
    ensures SimpleEscape(x) == if x in ESCAPES then Some(ESCAPES[x]) else None
  {
  }

  lemma FirstPieceIs(s: string)
    requires FirstPiece(s).Some?
    ensures var p := FirstPiece(s).value;
            PieceOk(p) && |PieceText(p)| <= |s| && s == PieceText(p) + s[|PieceText(p)|..]
            && ReadStrBody(s) == Prepend(PieceChar(p), ReadStrBody(s[|PieceText(p)|..]))
  {
    EscapesAre(if |s| >= 2 then s[1] else '"');
    if s[0] == '\\' && s[1] == 'u' {
      assert s[2..][..4] == s[2..6];
      HexValueIs(s[2..6], 0);
      FourDigits(s[2..6]);
    }
  }

  lemma NoPiece(s: string)
    requires s != "" && s[0] != '"' && FirstPiece(s).None?
    ensures ReadStrBody(s).None?
  {
    EscapesAre(if |s| >= 2 then s[1] else '"');
  }

  /** The text read as a string is that of the characters in some spelling. */
  lemma {:induction false} BodyRead(s: string) returns (ps: seq<Piece>)
    requires ReadStrBody(s).Some?
    ensures PiecesOk(ps) && s == Body(ps) + ReadStrBody(s).value.1 && ReadStrBody(s).value.0 == Chars(ps)
    decreases |s|
  {
    if s[0] == '"' {
      ps := [];
      assert s == "\"" + s[1..];
    } else if FirstPiece(s).None? {
      NoPiece(s);
      ps := [];
      assert false;
    } else {
      FirstPieceIs(s);
      ghost var p := FirstPiece(s).value;
      ghost var n := |PieceText(p)|;
      hide ReadStrBody, FirstPiece, PieceOk, PieceText, PieceChar;
      ghost var rest := BodyRead(s[n..]);
      BodyMore(p, rest, ReadStrBody(s).value.1);
      ps := [p] + rest;
    }
  }

  lemma BodyMore(p: Piece, ps: seq<Piece>, rest: string)
    ensures Body([p] + ps) + rest == PieceText(p) + (Body(ps) + rest)
    ensures Chars([p] + ps) == [PieceChar(p)] + Chars(ps)
    ensures PieceOk(p) && PiecesOk(ps) ==> PiecesOk([p] + ps)
  {
    hide PieceOk, PieceText, PieceChar;
    assert ([p] + ps)[1..] == ps;
  }

  lemma PieceIsFirst(p: Piece, more: string)
    requires PieceOk(p)
    ensures FirstPiece(PieceText(p) + more) == Some(p) && (PieceText(p) + more)[|PieceText(p)|..] == more
  {
    ghost var s := PieceText(p) + more;
    if p.Point? {
      assert s[2..][..4] == p.digits && s[2..6] == p.digits;
      HexValueIs(p.digits, 0);
    }
  }

  /** And every spelling is read. */
  lemma {:induction false} BodyReads(ps: seq<Piece>, rest: string)
    requires PiecesOk(ps)
    ensures ReadStrBody(Body(ps) + rest) == Some((Chars(ps), rest))
  {
    ghost var s := Body(ps) + rest;
    if ps == [] {
      assert s[1..] == rest;
    } else {
      ghost var more := Body(ps[1..]) + rest;
      BodyReads(ps[1..], rest);
      assert s == PieceText(ps[0]) + more;
      PieceIsFirst(ps[0], more);
      FirstPieceIs(s);
    }
  }

  /** `t` is the text of the value read from `s`, up to what was left. */
  predicate Wrote(num: Strtod, s: string, depth: nat, v: JVal, rest: string, t: Tree) {
    s == Flat(t) + rest && Written(num, t, rest) && Value(t) == v && depth + Height(t) <= MAX_DEPTH
  }

  predicate WroteItems(num: Strtod, s: string, depth: nat, vs: seq<JVal>, rest: string, items: seq<Item>) {
    && items != [] && s == FlatItems(items) + rest && WrittenItems(num, items, rest) && ItemValues(items) == vs
    && depth + ItemsHeight(items) <= MAX_DEPTH
  }

  predicate WroteFields(num: Strtod, s: string, depth: nat, vs: seq<(string, JVal)>, rest: string,
                        fields: seq<Field>) {
    && fields != [] && s == FlatFields(fields) + rest && WrittenFields(num, fields, rest)
    && FieldValues(fields) == vs && depth + FieldsHeight(fields) <= MAX_DEPTH
  }

  lemma Grouped(a: string, b: string, c: string)
    ensures (a + b) + c == a + (b + c)
  {
  }

  lemma QuoteWrote(num: Strtod, s0: string, depth: nat) returns (t: Tree)
    requires depth + 1 <= MAX_DEPTH && SkipWs(s0) != "" && SkipWs(s0)[0] == '"'
    requires ReadStrBody(SkipWs(s0)[1..]).Some?
    ensures var (v, rest) := ReadStrBody(SkipWs(s0)[1..]).value;
            Wrote(num, s0, depth, Str(v), rest, t)
  {
    ghost var s := SkipWs(s0);
    ghost var ps := BodyRead(s[1..]);
    ghost var lead, rest := LeadOf(s0), ReadStrBody(s[1..]).value.1;
    assert s == "\"" + s[1..];
    t := Quote(lead, ps);
    assert Flat(t) == lead + ("\"" + Body(ps)) && Written(num, t, rest) && Value(t) == Str(Chars(ps)) && Height(t) == 1;
    hide SkipWs, LeadOf, ReadStrBody, Body, Chars, PiecesOk, Flat, Written, Value, Height, J.AllWs;
    Grouped(lead, "\"" + Body(ps), rest);
    Grouped("\"", Body(ps), rest);
  }

  lemma WordWrote(num: Strtod, s0: string, depth: nat, v: JVal) returns (t: Tree)
    requires depth + 1 <= MAX_DEPTH && (v.Null? || v.Bool?) && StartsWith(SkipWs(s0), WordText(v))
    ensures Wrote(num, s0, depth, v, SkipWs(s0)[|WordText(v)|..], t)
  {
    t := Word(LeadOf(s0), v);
    ghost var s := SkipWs(s0);
    assert s == WordText(v) + s[|WordText(v)|..];
    hide WordText;
  }

  lemma NumberWrote(num: Strtod, s0: string, depth: nat) returns (t: Tree)
    requires depth + 1 <= MAX_DEPTH && SkipWs(s0) != "" && ReadNumber(num, SkipWs(s0)).Some?
    requires SkipWs(s0)[0] == '-' || '0' <= SkipWs(s0)[0] <= '9'
    ensures var (v, rest) := ReadNumber(num, SkipWs(s0)).value;
            Wrote(num, s0, depth, v, rest, t)
  {
    ghost var s := SkipWs(s0);
    ghost var (v, used) := num(s);
    t := Number(LeadOf(s0), s[..used], v);
    assert s == s[..used] + s[used..];
  }

  lemma EmptyIs(num: Strtod, lead: string, gap: string, rest: string)
    requires J.AllWs(lead) && J.AllWs(gap)
    ensures var t := Array(lead, gap, []);
            Flat(t) == lead + ("[" + (gap + "]")) && Written(num, t, rest) && Value(t) == Arr([]) && Height(t) == 1
    ensures var t := Object(lead, gap, []);
            Flat(t) == lead + ("{" + (gap + "}")) && Written(num, t, rest) && Value(t) == Obj([]) && Height(t) == 1
  {
    hide J.AllWs;
    assert ItemsHeight([]) == 0 && FieldsHeight([]) == 0;
    assert ItemValues([]) == [] && FieldValues([]) == [];
    assert WrittenItems(num, [], rest) && WrittenFields(num, [], rest);
  }

  lemma GroupedTwice(a: string, b: string, c: string, d: string, e: string)
    ensures (a + (b + (c + d))) + e == a + (b + (c + (d + e)))
  {
    Grouped(a, b + (c + d), e);
    Grouped(b, c + d, e);
    Grouped(c, d, e);
  }

  lemma EmptyArrayWrote(num: Strtod, s0: string, depth: nat) returns (t: Tree)
    requires depth + 1 <= MAX_DEPTH && SkipWs(s0) != "" && SkipWs(s0)[0] == '['
    requires Eat(SkipWs(s0)[1..], ']').Some?
    ensures Wrote(num, s0, depth, Arr([]), Eat(SkipWs(s0)[1..], ']').value, t)
  {
    ghost var s := SkipWs(s0);
    EatenIs(s[1..], ']');
    assert s == "[" + s[1..];
    hide SkipWs, LeadOf, Eat, Flat, Written, Value, Height, J.AllWs;
    ghost var lead, gap, rest := LeadOf(s0), LeadOf(s[1..]), Eat(s[1..], ']').value;
    EmptyIs(num, lead, gap, rest);
    t := Array(lead, gap, []);
    GroupedTwice(lead, "[", gap, "]", rest);
  }

  lemma EmptyObjectWrote(num: Strtod, s0: string, depth: nat) returns (t: Tree)
    requires depth + 1 <= MAX_DEPTH && SkipWs(s0) != "" && SkipWs(s0)[0] == '{'
    requires Eat(SkipWs(s0)[1..], '}').Some?
    ensures Wrote(num, s0, depth, Obj([]), Eat(SkipWs(s0)[1..], '}').value, t)
  {
    ghost var s := SkipWs(s0);
    EatenIs(s[1..], '}');
    assert s == "{" + s[1..];
    hide SkipWs, LeadOf, Eat, Flat, Written, Value, Height, J.AllWs;
    ghost var lead, gap, rest := LeadOf(s0), LeadOf(s[1..]), Eat(s[1..], '}').value;
    EmptyIs(num, lead, gap, rest);
    t := Object(lead, gap, []);
    GroupedTwice(lead, "{", gap, "}", rest);
  }

  lemma BracketIs(num: Strtod, lead: string, items: seq<Item>, rest: string)
    requires J.AllWs(lead) && items != [] && WrittenItems(num, items, rest)
    ensures var t := Array(lead, "", items);
            && Flat(t) == lead + ("[" + FlatItems(items)) && Written(num, t, rest)
            && Value(t) == Arr(ItemValues(items)) && Height(t) == 1 + ItemsHeight(items)
  {
    hide FlatItems, WrittenItems, ItemValues, ItemsHeight;
  }

  lemma BraceIs(num: Strtod, lead: string, fields: seq<Field>, rest: string)
    requires J.AllWs(lead) && fields != [] && WrittenFields(num, fields, rest)
    ensures var t := Object(lead, "", fields);
            && Flat(t) == lead + ("{" + FlatFields(fields)) && Written(num, t, rest)
            && Value(t) == Obj(FieldValues(fields)) && Height(t) == 1 + FieldsHeight(fields)
  {
    hide FlatFields, WrittenFields, FieldValues, FieldsHeight;
  }

  lemma BracketWrote(num: Strtod, s0: string, depth: nat, vs: seq<JVal>, rest: string, items: seq<Item>)
    returns (t: Tree)
    requires SkipWs(s0) != "" && SkipWs(s0)[0] == '['
    requires WroteItems(num, SkipWs(s0)[1..], depth + 1, vs, rest, items)
    ensures Wrote(num, s0, depth, Arr(vs), rest, t)
  {
    ghost var s := SkipWs(s0);
    ghost var lead := LeadOf(s0);
    assert s == "[" + s[1..];
    hide SkipWs, LeadOf, FlatItems, WrittenItems, ItemValues, ItemsHeight, Flat, Written, Value, Height, J.AllWs;
    BracketIs(num, lead, items, rest);
    t := Array(lead, "", items);
    Grouped(lead, "[" + FlatItems(items), rest);
    Grouped("[", FlatItems(items), rest);
  }

  lemma BraceWrote(num: Strtod, s0: string, depth: nat, vs: seq<(string, JVal)>, rest: string, fields: seq<Field>)
    returns (t: Tree)
    requires SkipWs(s0) != "" && SkipWs(s0)[0] == '{'
    requires WroteFields(num, SkipWs(s0)[1..], depth + 1, vs, rest, fields)
    ensures Wrote(num, s0, depth, Obj(vs), rest, t)
  {
    ghost var s := SkipWs(s0);
    ghost var lead := LeadOf(s0);
    assert s == "{" + s[1..];
    hide SkipWs, LeadOf, FlatFields, WrittenFields, FieldValues, FieldsHeight, Flat, Written, Value, Height, J.AllWs;
    BraceIs(num, lead, fields, rest);
    t := Object(lead, "", fields);
    Grouped(lead, "{" + FlatFields(fields), rest);
    Grouped("{", FlatFields(fields), rest);
  }

  /** What is read is the text of a tree of the value, not nested too deep. */
  lemma {:induction false} ValueRead(num: Strtod, s0: string, depth: nat) returns (t: Tree)
    requires ReadValue(num, s0, depth).Some?
    ensures var (v, rest) := ReadValue(num, s0, depth).value;
            Wrote(num, s0, depth, v, rest, t)
    decreases |s0|, 2
  {
    hide Wrote, WroteItems, WroteFields;
    ghost var s := SkipWs(s0);
    if s[0] == '"' {
      t := QuoteWrote(num, s0, depth);
    } else if s[0] == '{' {
      if Eat(s[1..], '}').Some? {
        t := EmptyObjectWrote(num, s0, depth);
      } else {
        ghost var vs, rest, fields := MembersRead(num, s[1..], depth + 1, []);
        assert [] + vs == vs;
        t := BraceWrote(num, s0, depth, vs, rest, fields);
      }
    } else if s[0] == '[' {
      if Eat(s[1..], ']').Some? {
        t := EmptyArrayWrote(num, s0, depth);
      } else {
        ghost var vs, rest, items := ItemsRead(num, s[1..], depth + 1, []);
        assert [] + vs == vs;
        t := BracketWrote(num, s0, depth, vs, rest, items);
      }
    } else if s[0] == 't' {
      t := WordWrote(num, s0, depth, Bool(true));
    } else if s[0] == 'f' {
      t := WordWrote(num, s0, depth, Bool(false));
    } else if s[0] == 'n' {
      t := WordWrote(num, s0, depth, Null);
    } else {
      t := NumberWrote(num, s0, depth);
    }
  }

  /** What follows an element: the closing bracket, or a comma and the elements after it. */
  function AfterItem(items: seq<Item>, rest: string): string {
    if items == [] then "]" + rest else "," + (FlatItems(items) + rest)
  }

  lemma FlatItemsCons(it: Item, items: seq<Item>, rest: string)
    ensures FlatItems([it] + items) + rest == Flat(it.tree) + (it.after + AfterItem(items, rest))
  {
    ghost var all := [it] + items;
    assert all[1..] == items;
    ghost var more := if items == [] then "]" else "," + FlatItems(items);
    assert FlatItems(all) == Flat(it.tree) + (it.after + more);
    assert more + rest == AfterItem(items, rest) by {
      hide Flat;
      if items != [] {
        Grouped(",", FlatItems(items), rest);
      }
    }
    hide *;
    Grouped(Flat(it.tree), it.after + more, rest);
    Grouped(it.after, more, rest);
  }

  lemma WrittenItemsCons(num: Strtod, it: Item, items: seq<Item>, rest: string)
    ensures WrittenItems(num, [it] + items, rest) <==>
            && J.AllWs(it.after) && Written(num, it.tree, it.after + AfterItem(items, rest))
            && WrittenItems(num, items, rest)
  {
    ghost var all := [it] + items;
    assert all[1..] == items;
    hide Written, FlatItems;
  }

  lemma ItemsCons(it: Item, items: seq<Item>)
    ensures ItemValues([it] + items) == [Value(it.tree)] + ItemValues(items)
    ensures ItemsHeight([it] + items) == Max(Height(it.tree), ItemsHeight(items))
  {
    assert ([it] + items)[1..] == items;
    hide Value, Height;
  }

  lemma ItemWrote(num: Strtod, s: string, depth: nat, v: JVal, rest: string, it: Item,
                  vs: seq<JVal>, items: seq<Item>)
    requires Wrote(num, s, depth, v, it.after + AfterItem(items, rest), it.tree) && J.AllWs(it.after)
    requires WrittenItems(num, items, rest) && ItemValues(items) == vs && depth + ItemsHeight(items) <= MAX_DEPTH
    ensures WroteItems(num, s, depth, [v] + vs, rest, [it] + items)
  {
    FlatItemsCons(it, items, rest);
    WrittenItemsCons(num, it, items, rest);
    ItemsCons(it, items);
    hide Flat, Written, Value, Height, FlatItems, WrittenItems, ItemValues, ItemsHeight;
  }

  lemma ItemIsLast(num: Strtod, s: string, depth: nat, v: JVal, s1: string, s2: string, t: Tree)
    requires Wrote(num, s, depth, v, s1, t) && Eat(s1, ']') == Some(s2)
    ensures WroteItems(num, s, depth, [v], s2, [Item(t, LeadOf(s1))])
  {
    EatenIs(s1, ']');
    ghost var it := Item(t, LeadOf(s1));
    assert Wrote(num, s, depth, v, it.after + AfterItem([], s2), t);
    assert Height(t) >= 0 && depth <= MAX_DEPTH;
    hide Wrote, WroteItems, Eat, LeadOf;
    ItemWrote(num, s, depth, v, s2, it, [], []);
    assert [it] + [] == [it] && [v] + [] == [v];
  }

  lemma ItemIsNext(num: Strtod, s: string, depth: nat, v: JVal, s1: string, s2: string, t: Tree,
                   vs: seq<JVal>, rest: string, items: seq<Item>)
    requires Wrote(num, s, depth, v, s1, t) && Eat(s1, ',') == Some(s2)
    requires WroteItems(num, s2, depth, vs, rest, items)
    ensures WroteItems(num, s, depth, [v] + vs, rest, [Item(t, LeadOf(s1))] + items)
  {
    EatenIs(s1, ',');
    ghost var it := Item(t, LeadOf(s1));
    hide Wrote, Eat, LeadOf, WrittenItems, ItemValues, ItemsHeight, FlatItems;
    assert s1 == it.after + AfterItem(items, rest);
    assert WrittenItems(num, items, rest) && ItemValues(items) == vs && depth + ItemsHeight(items) <= MAX_DEPTH;
    hide WroteItems;
    ItemWrote(num, s, depth, v, rest, it, vs, items);
  }

  lemma {:induction false} ItemsRead(num: Strtod, s: string, depth: nat, acc: seq<JVal>)
    returns (vs: seq<JVal>, rest: string, items: seq<Item>)
    requires ReadItems(num, s, depth, acc).Some?
    ensures ReadItems(num, s, depth, acc) == Some((Arr(acc + vs), rest))
    ensures WroteItems(num, s, depth, vs, rest, items)
    decreases |s|, 3
  {
    hide Wrote, WroteItems, Eat;
    ghost var (v, s1) := ReadValue(num, s, depth).value;
    ghost var t := ValueRead(num, s, depth);
    if Eat(s1, ',').Some? {
      ghost var s2 := Eat(s1, ',').value;
      ghost var more;
      more, rest, items := ItemsRead(num, s2, depth, acc + [v]);
      ItemIsNext(num, s, depth, v, s1, s2, t, more, rest, items);
      vs, items := [v] + more, [Item(t, LeadOf(s1))] + items;
      assert acc + vs == (acc + [v]) + more;
    } else {
      ItemIsLast(num, s, depth, v, s1, Eat(s1, ']').value, t);
      vs, rest, items := [v], Eat(s1, ']').value, [Item(t, LeadOf(s1))];
    }
  }

  /** The part of a member before its value. */
  lemma KeyRead(s: string) returns (ps: seq<Piece>, colon: string)
    requires ReadStr(s).Some? && Eat(ReadStr(s).value.1, ':').Some?
    ensures var (k, s1) := ReadStr(s).value;
            s == LeadOf(s) + ("\"" + (Body(ps) + (colon + (":" + Eat(s1, ':').value)))) && PiecesOk(ps)
            && k == Chars(ps) && J.AllWs(colon)
  {
    EatenIs(s, '"');
    ps := BodyRead(Eat(s, '"').value);
    ghost var s1 := ReadStr(s).value.1;
    EatenIs(s1, ':');
    colon := LeadOf(s1);
    hide Eat, LeadOf, Body, Chars, PiecesOk, ReadStrBody;
  }

  function AfterField(fields: seq<Field>, rest: string): string {
    if fields == [] then "}" + rest else "," + (FlatFields(fields) + rest)
  }

  /** A member's text up to its value. */
  function KeyText(f: Field, after: string): string {
    f.lead + ("\"" + (Body(f.key) + (f.colon + (":" + after))))
  }

  lemma KeyTextSplit(f: Field, after: string, rest: string)
    ensures KeyText(f, after) + rest == KeyText(f, after + rest)
  {
    hide Body;
    ghost var a := f.colon + (":" + after);
    assert a + rest == f.colon + (":" + (after + rest));
    ghost var b := Body(f.key) + a;
    assert b + rest == Body(f.key) + (a + rest);
    assert ("\"" + b) + rest == "\"" + (b + rest);
  }

  lemma FlatFieldsCons(f: Field, fields: seq<Field>, rest: string)
    ensures FlatFields([f] + fields) + rest == KeyText(f, Flat(f.tree) + (f.after + AfterField(fields, rest)))
  {
    ghost var all := [f] + fields;
    assert all[1..] == fields;
    ghost var more := if fields == [] then "}" else "," + FlatFields(fields);
    assert FlatFields(all) == KeyText(f, Flat(f.tree) + (f.after + more)) by {
      hide Body, Flat;
    }
    assert more + rest == AfterField(fields, rest) by {
      hide Flat, KeyText, Body;
      if fields != [] {
        Grouped(",", FlatFields(fields), rest);
      }
    }
    hide *;
    KeyTextSplit(f, Flat(f.tree) + (f.after + more), rest);
    Grouped(Flat(f.tree), f.after + more, rest);
    Grouped(f.after, more, rest);
  }

  lemma WrittenFieldsCons(num: Strtod, f: Field, fields: seq<Field>, rest: string)
    ensures WrittenFields(num, [f] + fields, rest) <==>
            && J.AllWs(f.lead) && PiecesOk(f.key) && J.AllWs(f.colon) && J.AllWs(f.after)
            && Written(num, f.tree, f.after + AfterField(fields, rest)) && WrittenFields(num, fields, rest)
  {
    ghost var all := [f] + fields;
    assert all[1..] == fields;
    hide Written, FlatFields, PiecesOk;
  }

  lemma FieldsCons(f: Field, fields: seq<Field>)
    ensures FieldValues([f] + fields) == [(Chars(f.key), Value(f.tree))] + FieldValues(fields)
    ensures FieldsHeight([f] + fields) == Max(Height(f.tree), FieldsHeight(fields))
  {
    assert ([f] + fields)[1..] == fields;
    hide Value, Height, Chars;
  }

  lemma FieldWrote(num: Strtod, s2: string, depth: nat, v: JVal, rest: string, f: Field,
                   vs: seq<(string, JVal)>, fields: seq<Field>)
    requires J.AllWs(f.lead) && PiecesOk(f.key) && J.AllWs(f.colon) && J.AllWs(f.after)
    requires Wrote(num, s2, depth, v, f.after + AfterField(fields, rest), f.tree)
    requires WrittenFields(num, fields, rest) && FieldValues(fields) == vs && depth + FieldsHeight(fields) <= MAX_DEPTH
    ensures WroteFields(num, KeyText(f, s2), depth, [(Chars(f.key), v)] + vs, rest, [f] + fields)
  {
    FlatFieldsCons(f, fields, rest);
    WrittenFieldsCons(num, f, fields, rest);
    FieldsCons(f, fields);
    hide Flat, Written, Value, Height, FlatFields, WrittenFields, FieldValues, FieldsHeight, KeyText, PiecesOk;
  }

  lemma FieldIsLast(num: Strtod, s2: string, depth: nat, v: JVal, s3: string, s4: string, f: Field)
    requires J.AllWs(f.lead) && PiecesOk(f.key) && J.AllWs(f.colon) && f.after == LeadOf(s3)
    requires Wrote(num, s2, depth, v, s3, f.tree) && Eat(s3, '}') == Some(s4)
    ensures WroteFields(num, KeyText(f, s2), depth, [(Chars(f.key), v)], s4, [f])
  {
    EatenIs(s3, '}');
    assert s3 == f.after + AfterField([], s4);
    assert depth <= MAX_DEPTH;
    hide Wrote, WroteFields, Eat, LeadOf, KeyText, PiecesOk;
    FieldWrote(num, s2, depth, v, s4, f, [], []);
    ghost var kv := (Chars(f.key), v);
    assert [f] + [] == [f] && [kv] + [] == [kv];
  }

  lemma FieldIsNext(num: Strtod, s2: string, depth: nat, v: JVal, s3: string, s4: string, f: Field,
                    vs: seq<(string, JVal)>, rest: string, fields: seq<Field>)
    requires J.AllWs(f.lead) && PiecesOk(f.key) && J.AllWs(f.colon) && f.after == LeadOf(s3)
    requires Wrote(num, s2, depth, v, s3, f.tree) && Eat(s3, ',') == Some(s4)
    requires WroteFields(num, s4, depth, vs, rest, fields)
    ensures WroteFields(num, KeyText(f, s2), depth, [(Chars(f.key), v)] + vs, rest, [f] + fields)
  {
    EatenIs(s3, ',');
    hide Wrote, Eat, LeadOf, WrittenFields, FieldValues, FieldsHeight, FlatFields, KeyText, PiecesOk;
    assert s3 == f.after + AfterField(fields, rest);
    assert && WrittenFields(num, fields, rest) && FieldValues(fields) == vs
           && depth + FieldsHeight(fields) <= MAX_DEPTH;
    hide WroteFields;
    FieldWrote(num, s2, depth, v, rest, f, vs, fields);
  }

  lemma {:induction false} MembersRead(num: Strtod, s: string, depth: nat, acc: seq<(string, JVal)>)
    returns (vs: seq<(string, JVal)>, rest: string, fields: seq<Field>)
    requires ReadMembers(num, s, depth, acc).Some?
    ensures ReadMembers(num, s, depth, acc) == Some((Obj(acc + vs), rest))
    ensures WroteFields(num, s, depth, vs, rest, fields)
    decreases |s|, 0
  {
    hide Wrote, WroteFields, Eat, ReadStr, Body, Chars, PiecesOk;
    ghost var (k, s1) := ReadStr(s).value;
    ghost var ps, colon := KeyRead(s);
    ghost var s2 := Eat(s1, ':').value;
    ghost var (v, s3) := ReadValue(num, s2, depth).value;
    ghost var t := ValueRead(num, s2, depth);
    ghost var f := Field(LeadOf(s), ps, colon, t, LeadOf(s3));
    if Eat(s3, ',').Some? {
      ghost var s4 := Eat(s3, ',').value;
      ghost var more;
      more, rest, fields := MembersRead(num, s4, depth, acc + [(k, v)]);
      FieldIsNext(num, s2, depth, v, s3, s4, f, more, rest, fields);
      vs, fields := [(k, v)] + more, [f] + fields;
      assert acc + vs == (acc + [(k, v)]) + more;
    } else {
      FieldIsLast(num, s2, depth, v, s3, Eat(s3, '}').value, f);
      vs, rest, fields := [(k, v)], Eat(s3, '}').value, [f];
    }
  }

  // ---------- what is written is read ----------

  /** A tree's text after its white space. */
  function Core(t: Tree): string {
    match t
    case Word(_, v) => WordText(v)
    case Number(_, text, _) => text
    case Quote(_, pieces) => "\"" + Body(pieces)
    case Array(_, gap, items) => "[" + if items == [] then gap + "]" else FlatItems(items)
    case Object(_, gap, fields) => "{" + if fields == [] then gap + "}" else FlatFields(fields)
  }

  lemma CoreStarts(num: Strtod, t: Tree, rest: string)
    requires Written(num, t, rest)
    ensures Flat(t) == t.lead + Core(t) && J.AllWs(t.lead)
    ensures Core(t) != "" && !IsWs(Core(t)[0]) && Core(t)[0] != ']' && Core(t)[0] != '}'
  {
    hide Body, FlatItems, FlatFields, PiecesOk, WrittenItems, WrittenFields;
  }

  lemma QuoteReads(num: Strtod, ps: seq<Piece>, rest: string, depth: nat)
    requires depth + 1 <= MAX_DEPTH && PiecesOk(ps)
    ensures ReadValue(num, ("\"" + Body(ps)) + rest, depth) == Some((Str(Chars(ps)), rest))
  {
    ghost var s := "\"" + (Body(ps) + rest);
    Grouped("\"", Body(ps), rest);
    assert s[0] == '"' && s[1..] == Body(ps) + rest;
    BodyReads(ps, rest);
    hide Body, Chars, ReadStrBody, ReadMembers, ReadItems, ReadNumber;
    assert SkipWs(s) == s;
    assert ReadStr(s) == ReadStrBody(s[1..]);
    hide SkipWs, ReadStr;
  }

  lemma WordReads(num: Strtod, v: JVal, rest: string, depth: nat)
    requires depth + 1 <= MAX_DEPTH && (v.Null? || v.Bool?)
    ensures ReadValue(num, WordText(v) + rest, depth) == Some((v, rest))
  {
    ghost var w, s := WordText(v), WordText(v) + rest;
    assert s[0] == w[0] && s[..|w|] == w && s[|w|..] == rest;
    assert SkipWs(s) == s;
    assert StartsWith(s, w);
    hide SkipWs, ReadMembers, ReadItems, ReadNumber, ReadStr, Eat;
  }

  lemma NumberReads(num: Strtod, text: string, n: real, rest: string, depth: nat)
    requires depth + 1 <= MAX_DEPTH && text != "" && (text[0] == '-' || '0' <= text[0] <= '9')
    requires num(text + rest) == (n, |text|)
    ensures ReadValue(num, text + rest, depth) == Some((Num(n), rest))
  {
    ghost var s := text + rest;
    assert s[0] == text[0] && s[|text|..] == rest;
    assert SkipWs(s) == s;
    hide SkipWs, ReadMembers, ReadItems, ReadStr, Eat;
  }

  /** After a bracket: what stands there is read as the first element, unless the closing one comes. */
  lemma OpensWith(num: Strtod, open: char, s: string, depth: nat)
    requires depth + 1 <= MAX_DEPTH && (open == '[' || open == '{')
    ensures var close := if open == '[' then ']' else '}';
            ReadValue(num, [open] + s, depth) ==
            if Eat(s, close).Some? then Some((if open == '[' then Arr([]) else Obj([]), Eat(s, close).value))
            else if open == '[' then ReadItems(num, s, depth + 1, []) else ReadMembers(num, s, depth + 1, [])
  {
    ghost var t := [open] + s;
    assert t[0] == open && t[1..] == s;
    assert SkipWs(t) == t;
    hide SkipWs, ReadMembers, ReadItems, ReadStr, Eat;
  }

  lemma NoCloseYet(num: Strtod, t: Tree, rest: string, more: string)
    requires Written(num, t, rest)
    ensures Eat(Flat(t) + more, ']').None?
  {
    CoreStarts(num, t, rest);
    hide Core, Flat, Written;
    Grouped(t.lead, Core(t), more);
    J.SkipLead(t.lead, Core(t) + more);
    assert (Core(t) + more)[0] == Core(t)[0];
  }

  lemma NoBraceYet(f: Field, after: string)
    requires J.AllWs(f.lead)
    ensures Eat(KeyText(f, after), '}').None?
  {
    ghost var more := "\"" + (Body(f.key) + (f.colon + (":" + after)));
    J.SkipLead(f.lead, more);
    hide Body;
    assert more[0] == '"';
  }

  lemma ArrayReads(num: Strtod, gap: string, items: seq<Item>, rest: string, depth: nat)
    requires depth + 1 <= MAX_DEPTH && J.AllWs(gap) && WrittenItems(num, items, rest)
    requires items != [] ==>
               ReadItems(num, FlatItems(items) + rest, depth + 1, []) == Some((Arr([] + ItemValues(items)), rest))
    ensures ReadValue(num, Core(Array("", gap, items)) + rest, depth) == Some((Arr(ItemValues(items)), rest))
  {
    if items == [] {
      EmptyReads(num, '[', ']', gap, rest, depth);
      NothingInIt();
    } else {
      FirstItem(num, items, rest);
      hide ReadValue, ReadItems, ReadMembers, WrittenItems, FlatItems, ItemValues, Eat;
      Grouped("[", FlatItems(items), rest);
      OpensWith(num, '[', FlatItems(items) + rest, depth);
      assert [] + ItemValues(items) == ItemValues(items);
    }
  }

  lemma ObjectReads(num: Strtod, gap: string, fields: seq<Field>, rest: string, depth: nat)
    requires depth + 1 <= MAX_DEPTH && J.AllWs(gap) && WrittenFields(num, fields, rest)
    requires fields != [] ==>
               ReadMembers(num, FlatFields(fields) + rest, depth + 1, [])
               == Some((Obj([] + FieldValues(fields)), rest))
    ensures ReadValue(num, Core(Object("", gap, fields)) + rest, depth) == Some((Obj(FieldValues(fields)), rest))
  {
    if fields == [] {
      EmptyReads(num, '{', '}', gap, rest, depth);
      NothingInIt();
    } else {
      FirstField(num, fields, rest);
      hide PiecesOk, J.AllWs;
      hide ReadValue, ReadItems, ReadMembers, WrittenFields, FlatFields, FieldValues, Eat;
      Grouped("{", FlatFields(fields), rest);
      OpensWith(num, '{', FlatFields(fields) + rest, depth);
      assert [] + FieldValues(fields) == FieldValues(fields);
    }
  }

  /** Every tree nested within the limit is read, and what follows it left. */
  lemma {:induction false} TreeReads(num: Strtod, t: Tree, rest: string, depth: nat)
    requires Written(num, t, rest) && depth + Height(t) <= MAX_DEPTH
    ensures ReadValue(num, Flat(t) + rest, depth) == Some((Value(t), rest))
    decreases t, 2
  {
    CoreStarts(num, t, rest);
    hide *;
    J.ValueAfterLead(num, t.lead, Core(t) + rest, depth);
    Grouped(t.lead, Core(t), rest);
    CoreReads(num, t, rest, depth);
  }

  lemma {:induction false} CoreReads(num: Strtod, t: Tree, rest: string, depth: nat)
    requires Written(num, t, rest) && depth + Height(t) <= MAX_DEPTH
    ensures ReadValue(num, Core(t) + rest, depth) == Some((Value(t), rest))
    decreases t, 1
  {
    hide ReadValue, ReadItems, ReadMembers, WrittenItems, WrittenFields, FlatItems, FlatFields, Body, Chars, PiecesOk,
         ItemValues, FieldValues, ItemsHeight, FieldsHeight, Flat, J.AllWs;
    match t
    case Word(_, v) =>
      WordReads(num, v, rest, depth);
    case Number(_, text, n) =>
      NumberReads(num, text, n, rest, depth);
    case Quote(_, pieces) =>
      QuoteReads(num, pieces, rest, depth);
    case Array(_, gap, items) =>
      if items != [] {
        ItemsReads(num, items, rest, depth + 1, []);
      }
      ArrayReads(num, gap, items, rest, depth);
    case Object(_, gap, fields) =>
      if fields != [] {
        FieldsReads(num, fields, rest, depth + 1, []);
      }
      ObjectReads(num, gap, fields, rest, depth);
  }

  lemma NothingInIt()
    ensures ItemValues([]) == [] && FieldValues([]) == []
  {
  }

  lemma EmptyReads(num: Strtod, open: char, close: char, gap: string, rest: string, depth: nat)
    requires depth + 1 <= MAX_DEPTH && J.AllWs(gap)
    requires (open == '[' && close == ']') || (open == '{' && close == '}')
    ensures ReadValue(num, ([open] + (gap + [close])) + rest, depth)
            == Some((if open == '[' then Arr([]) else Obj([]), rest))
  {
    OpensWith(num, open, gap + ([close] + rest), depth);
    J.EatLead(gap, close, rest);
    hide ReadValue, Eat, ReadItems, ReadMembers;
    Grouped([open], gap + [close], rest);
    Grouped(gap, [close], rest);
  }

  lemma FirstItem(num: Strtod, items: seq<Item>, rest: string)
    requires items != [] && WrittenItems(num, items, rest)
    ensures Eat(FlatItems(items) + rest, ']').None?
  {
    ghost var it, others := items[0], items[1..];
    assert items == [it] + others;
    hide FlatItems, WrittenItems, Eat, Flat, Written, AfterItem;
    FlatItemsCons(it, others, rest);
    WrittenItemsCons(num, it, others, rest);
    ghost var more := it.after + AfterItem(others, rest);
    NoCloseYet(num, it.tree, more, more);
  }

  lemma FirstField(num: Strtod, fields: seq<Field>, rest: string)
    requires fields != [] && WrittenFields(num, fields, rest)
    ensures Eat(FlatFields(fields) + rest, '}').None?
  {
    ghost var f, others := fields[0], fields[1..];
    assert fields == [f] + others;
    hide FlatFields, WrittenFields, Eat, Flat, Written, AfterField, KeyText;
    FlatFieldsCons(f, others, rest);
    WrittenFieldsCons(num, f, others, rest);
    NoBraceYet(f, Flat(f.tree) + (f.after + AfterField(others, rest)));
  }

  /** One element read, and what is done after it. */
  lemma ItemStep(num: Strtod, s: string, v: JVal, it: Item, items: seq<Item>, rest: string, depth: nat, acc: seq<JVal>)
    requires ReadValue(num, s, depth) == Some((v, it.after + AfterItem(items, rest))) && J.AllWs(it.after)
    ensures ReadItems(num, s, depth, acc) ==
            if items == [] then Some((Arr(acc + [v]), rest))
            else ReadItems(num, FlatItems(items) + rest, depth, acc + [v])
  {
    if items == [] {
      J.EatLead(it.after, ']', rest);
    } else {
      J.EatLead(it.after, ',', FlatItems(items) + rest);
    }
    hide ReadValue, Eat, FlatItems;
  }

  lemma {:induction false} ItemsReads(num: Strtod, items: seq<Item>, rest: string, depth: nat, acc: seq<JVal>)
    requires items != [] && WrittenItems(num, items, rest) && depth + ItemsHeight(items) <= MAX_DEPTH
    ensures ReadItems(num, FlatItems(items) + rest, depth, acc) == Some((Arr(acc + ItemValues(items)), rest))
    decreases items, 0
  {
    ghost var it, others := items[0], items[1..];
    assert items == [it] + others;
    ghost var more := it.after + AfterItem(others, rest);
    FlatItemsCons(it, others, rest);
    WrittenItemsCons(num, it, others, rest);
    ItemsCons(it, others);
    hide ReadValue, ReadItems, FlatItems, WrittenItems, Flat, Written, Value, Height, ItemValues, ItemsHeight,
         AfterItem;
    TreeReads(num, it.tree, more, depth);
    ItemStep(num, Flat(it.tree) + more, Value(it.tree), it, others, rest, depth, acc);
    if others == [] {
      NothingInIt();
      assert acc + [Value(it.tree)] == acc + ItemValues(items);
    } else {
      ItemsReads(num, others, rest, depth, acc + [Value(it.tree)]);
      GroupedOne(acc, Value(it.tree), ItemValues(others));
    }
  }

  lemma GroupedOne<T>(a: seq<T>, x: T, b: seq<T>)
    ensures (a + [x]) + b == a + ([x] + b)
  {
  }

  lemma KeyReads(f: Field, after: string)
    requires J.AllWs(f.lead) && PiecesOk(f.key) && J.AllWs(f.colon)
    ensures var s1 := f.colon + (":" + after);
            ReadStr(KeyText(f, after)) == Some((Chars(f.key), s1)) && Eat(s1, ':') == Some(after)
  {
    ghost var s1 := f.colon + (":" + after);
    ghost var body := Body(f.key) + s1;
    J.StrAfterLead(f.lead, "\"" + body);
    J.EatFirst('"', body);
    BodyReads(f.key, s1);
    J.EatLead(f.colon, ':', after);
    hide Body, Chars, PiecesOk, ReadStrBody, Eat;
  }

  lemma FieldStep(num: Strtod, after: string, v: JVal, f: Field, fields: seq<Field>, rest: string, depth: nat,
                  acc: seq<(string, JVal)>)
    requires J.AllWs(f.lead) && PiecesOk(f.key) && J.AllWs(f.colon) && J.AllWs(f.after)
    requires ReadValue(num, after, depth) == Some((v, f.after + AfterField(fields, rest)))
    ensures var kv := (Chars(f.key), v);
            ReadMembers(num, KeyText(f, after), depth, acc) ==
            if fields == [] then Some((Obj(acc + [kv]), rest))
            else ReadMembers(num, FlatFields(fields) + rest, depth, acc + [kv])
  {
    KeyReads(f, after);
    if fields == [] {
      J.EatLead(f.after, '}', rest);
    } else {
      J.EatLead(f.after, ',', FlatFields(fields) + rest);
    }
    hide ReadValue, Eat, FlatFields, ReadStr, KeyText, Chars, PiecesOk;
  }

  lemma {:induction false} FieldsReads(num: Strtod, fields: seq<Field>, rest: string, depth: nat,
                                       acc: seq<(string, JVal)>)
    requires fields != [] && WrittenFields(num, fields, rest) && depth + FieldsHeight(fields) <= MAX_DEPTH
    ensures ReadMembers(num, FlatFields(fields) + rest, depth, acc) == Some((Obj(acc + FieldValues(fields)), rest))
    decreases fields, 0
  {
    ghost var f, others := fields[0], fields[1..];
    assert fields == [f] + others;
    ghost var more := f.after + AfterField(others, rest);
    FlatFieldsCons(f, others, rest);
    WrittenFieldsCons(num, f, others, rest);
    FieldsCons(f, others);
    hide ReadValue, ReadMembers, FlatFields, WrittenFields, Flat, Written, Value, Height, FieldValues, FieldsHeight,
         AfterField, KeyText, Chars, PiecesOk;
    TreeReads(num, f.tree, more, depth);
    ghost var kv := (Chars(f.key), Value(f.tree));
    FieldStep(num, Flat(f.tree) + more, Value(f.tree), f, others, rest, depth, acc);
    if others == [] {
      NothingInIt();
      assert acc + [kv] == acc + FieldValues(fields);
    } else {
      FieldsReads(num, others, rest, depth, acc + [kv]);
      GroupedOne(acc, kv, FieldValues(others));
    }
  }

  /**
    The reader reads a value and leaves `rest` if and only if what stands before `rest` is the
    text of a tree of that value, nested within the limit.
  */
  lemma ReadExactly(num: Strtod, s: string, depth: nat, v: JVal, rest: string)
    ensures ReadValue(num, s, depth) == Some((v, rest)) <==> exists t :: Wrote(num, s, depth, v, rest, t)
  {
    hide ReadValue, Written, Flat, Value, Height;
    if ReadValue(num, s, depth) == Some((v, rest)) {
      ghost var t := ValueRead(num, s, depth);
    }
    forall t | Wrote(num, s, depth, v, rest, t) ensures ReadValue(num, s, depth) == Some((v, rest)) {
      TreeReads(num, t, rest, depth);
    }
  }
}
