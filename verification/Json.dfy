/**
  The JSON reader of the annotation sidecar, and the writer's string and number forms.

  `Read*` give the meaning of the reader on the text that is still ahead; the class does it
  in place, with a position and a nesting depth.  Text is a sequence of bytes.  Section 7
  of RFC 8259 gives the string escapes.
*/
module Json {
  import opened Common

  datatype JVal =
    | Null
    | Bool(b: bool)
    | Num(n: real)
    | Str(s: string)
    | Arr(items: seq<JVal>)
    | Obj(members: seq<(string, JVal)>)

  /** The C library's reading of a number: its value, and how many bytes it takes up. */
  type Strtod = string -> (real, nat)

  const MAX_DEPTH: nat := 32

  // ---------- the reader, as functions on the text ahead ----------

  predicate IsWs(c: char) {
    c == ' ' || c == '\t' || c == '\n' || c == '\r'
  }

  function SkipWs(s: string): (r: string)
    ensures |r| <= |s|
    ensures r != "" ==> !IsWs(r[0])
  {
    if s != "" && IsWs(s[0]) then SkipWs(s[1..]) else s
  }

  function Eat(s: string, c: char): (r: Option<string>)
    ensures r.Some? ==> |r.value| < |s|
  {
    var t := SkipWs(s);
    if t != "" && t[0] == c then Some(t[1..]) else None
  }

  function HexDigit(c: char): Option<nat> {
    if '0' <= c <= '9' then Some(c as int - '0' as int)
    else if 'a' <= c <= 'f' then Some(c as int - 'a' as int + 10)
    else if 'A' <= c <= 'F' then Some(c as int - 'A' as int + 10)
    else None
  }

  /** The value of the hex digits of `s`, most significant first, after those worth `acc`. */
  function HexValue(s: string, acc: nat): Option<nat> {
    if s == "" then Some(acc)
    else match HexDigit(s[0])
      case None => None
      case Some(d) => HexValue(s[1..], acc * 16 + d)
  }

  function Hex4(s: string): Option<nat> {
    if |s| < 4 then None else HexValue(s[..4], 0)
  }

  function SimpleEscape(x: char): Option<char> {
    if x == '"' then Some('"')
    else if x == '\\' then Some('\\')
    else if x == '/' then Some('/')
    else if x == 'b' then Some('\U{0008}')
    else if x == 'f' then Some('\U{000C}')
    else if x == 'n' then Some('\n')
    else if x == 'r' then Some('\r')
    else if x == 't' then Some('\t')
    else None
  }

  /** A code point beyond ASCII has no safe rendering and becomes a question mark. */
  function FoldCodePoint(cp: nat): char {
    if cp < 0x80 then cp as char else '?'
  }

  function Prepend(c: char, r: Option<(string, string)>): Option<(string, string)> {
    match r
    case None => None
    case Some((t, rest)) => Some(([c] + t, rest))
  }

  /** A string after its opening quote. */
  function ReadStrBody(s: string): (r: Option<(string, string)>)
    ensures r.Some? ==> |r.value.1| < |s|
  {
    if s == "" then None
    else if s[0] == '"' then Some(("", s[1..]))
    else if s[0] != '\\' then Prepend(s[0], ReadStrBody(s[1..]))
    else if |s| < 2 then None
    else if s[1] == 'u' then
      match Hex4(s[2..])
      case None => None
      case Some(cp) => Prepend(FoldCodePoint(cp), ReadStrBody(s[6..]))
    else match SimpleEscape(s[1])
      case None => None
      case Some(c) => Prepend(c, ReadStrBody(s[2..]))
  }

  function ReadStr(s: string): (r: Option<(string, string)>)
    ensures r.Some? ==> |r.value.1| < |s|
  {
    match Eat(s, '"')
    case None => None
    case Some(t) => ReadStrBody(t)
  }

  function ReadNumber(num: Strtod, s: string): (r: Option<(JVal, string)>)
    ensures r.Some? ==> |r.value.1| < |s|
  {
    var (v, used) := num(s);
    if 0 < used <= |s| then Some((Num(v), s[used..])) else None
  }

  function ReadValue(num: Strtod, s: string, depth: nat): (r: Option<(JVal, string)>)
    ensures r.Some? ==> |r.value.1| < |s|
    decreases |s|, 2
  {
    if depth + 1 > MAX_DEPTH then None else ReadInner(num, s, depth + 1)
  }

  function ReadInner(num: Strtod, s0: string, depth: nat): (r: Option<(JVal, string)>)
    ensures r.Some? ==> |r.value.1| < |s0|
    decreases |s0|, 1
  {
    var s := SkipWs(s0);
    if s == "" then None
    else if s[0] == '"' then
      match ReadStr(s)
      case None => None
      case Some((t, rest)) => Some((Str(t), rest))
    else if s[0] == '{' then
      match Eat(s[1..], '}')
      case Some(rest) => Some((Obj([]), rest))
      case None => ReadMembers(num, s[1..], depth, [])
    else if s[0] == '[' then
      match Eat(s[1..], ']')
      case Some(rest) => Some((Arr([]), rest))
      case None => ReadItems(num, s[1..], depth, [])
    else if s[0] == 't' then if StartsWith(s, "true") then Some((Bool(true), s[4..])) else None
    else if s[0] == 'f' then if StartsWith(s, "false") then Some((Bool(false), s[5..])) else None
    else if s[0] == 'n' then if StartsWith(s, "null") then Some((Null, s[4..])) else None
    else if s[0] == '-' || '0' <= s[0] <= '9' then ReadNumber(num, s)
    else None
  }

  /** Members of an object, those of `acc` having been read. */
  function ReadMembers(num: Strtod, s: string, depth: nat, acc: seq<(string, JVal)>): (r: Option<(JVal, string)>)
    ensures r.Some? ==> |r.value.1| < |s|
    decreases |s|, 0
  {
    match ReadStr(s)
    case None => None
    case Some((k, s1)) =>
      match Eat(s1, ':')
      case None => None
      case Some(s2) =>
        match ReadValue(num, s2, depth)
        case None => None
        case Some((v, s3)) =>
          match Eat(s3, ',')
          case Some(s4) => ReadMembers(num, s4, depth, acc + [(k, v)])
          case None =>
            match Eat(s3, '}')
            case None => None
            case Some(s4) => Some((Obj(acc + [(k, v)]), s4))
  }

  function ReadItems(num: Strtod, s: string, depth: nat, acc: seq<JVal>): (r: Option<(JVal, string)>)
    ensures r.Some? ==> |r.value.1| < |s|
    decreases |s|, 3
  {
    match ReadValue(num, s, depth)
    case None => None
    case Some((v, s1)) =>
      match Eat(s1, ',')
      case Some(s2) => ReadItems(num, s2, depth, acc + [v])
      case None =>
        match Eat(s1, ']')
        case None => None
        case Some(s2) => Some((Arr(acc + [v]), s2))
  }

  // ---------- the reader in place ----------

  class JParser {
    const text: string
    const num: Strtod
    var p: nat
    var depth: nat

    constructor (text: string, num: Strtod)
      ensures this.text == text && this.num == num && p == 0 && depth == 0
    {
      this.text, this.num, p, depth := text, num, 0, 0;
    }

    ghost predicate Ok()
      reads this
    {
      p <= |text|
    }

    function Ahead(): string
      requires Ok()
      reads this
    {
      text[p..]
    }

    method Ws()
      requires Ok()
      modifies this`p
      ensures Ok() && Ahead() == SkipWs(old(Ahead())) && p >= old(p)
    {
      while p < |text| && IsWs(text[p])
        invariant old(p) <= p <= |text| && SkipWs(text[p..]) == SkipWs(old(Ahead()))
        decreases |text| - p
      {
        assert text[p..][1..] == text[p + 1..];
        p := p + 1;
      }
    }

    /** Passes over the byte `c` if it comes next; white space is passed over either way. */
    method EatByte(c: char) returns (found: bool)
      requires Ok()
      modifies this`p
      ensures Ok() && p >= old(p)
      ensures found <==> Eat(old(Ahead()), c).Some?
      ensures Ahead() == if found then Eat(old(Ahead()), c).value else SkipWs(old(Ahead()))
    {
      Ws();
      if p < |text| && text[p] == c {
        assert text[p..][1..] == text[p + 1..];
        p := p + 1;
        return true;
      }
      return false;
    }

    method ReadHex4() returns (found: bool, cp: nat)
      requires Ok()
      modifies this`p
      ensures Ok() && p >= old(p)
      ensures found <==> Hex4(old(Ahead())).Some?
      ensures found ==> cp == Hex4(old(Ahead())).value && |old(Ahead())| >= 4 && Ahead() == old(Ahead())[4..]
    {
      cp := 0;
      if |text| - p < 4 {
        return false, 0;
      }
      ghost var four := text[p..][..4];
      var i := 0;
      while i < 4
        invariant 0 <= i <= 4 && p == old(p) && HexValue(four[i..], cp) == HexValue(four, 0)
      {
        assert four[i..][0] == text[p + i] && four[i..][1..] == four[i + 1..];
        var d := HexDigit(text[p + i]);
        if d.None? {
          return false, cp;
        }
        cp := cp * 16 + d.value;
        i := i + 1;
      }
      assert text[p..][4..] == text[p + 4..];
      p := p + 4;
      return true, cp;
    }

    /** A string, opening quote included. */
    method ReadString() returns (found: bool, out: string)
      requires Ok()
      modifies this`p
      ensures Ok() && p >= old(p)
      ensures found <==> ReadStr(old(Ahead())).Some?
      ensures found ==> ReadStr(old(Ahead())).value == (out, Ahead())
    {
      var quoted := EatByte('"');
      if !quoted {
        return false, "";
      }
      ghost var body := ReadStrBody(Ahead());
      out := "";
      AfterNothing(body);
      while p < |text|
        invariant p <= |text| && p >= old(p)
        invariant AfterPrefix(out, ReadStrBody(text[p..])) == body
        decreases |text| - p
      {
        var c := text[p];
        ghost var ahead, so := text[p..], out;
        assert ahead[0] == c && ahead[1..] == text[p + 1..];
        p := p + 1;
        if c == '"' {
          assert out + "" == out;
          return true, out;
        }
        if c != '\\' {
          out := out + [c];
          AfterOne(so, c, ReadStrBody(text[p..]));
          continue;
        }
        if p >= |text| {
          return false, out;
        }
        var x := text[p];
        assert ahead[1] == x && ahead[2..] == text[p + 1..];
        p := p + 1;
        if x == 'u' {
          var hex, cp := ReadHex4();
          if !hex {
            return false, out;
          }
          assert ahead[2..][4..] == ahead[6..];
          out := out + [FoldCodePoint(cp)];
          AfterOne(so, FoldCodePoint(cp), ReadStrBody(text[p..]));
        } else {
          var e := SimpleEscape(x);
          if e.None? {
            return false, out;
          }
          out := out + [e.value];
          AfterOne(so, e.value, ReadStrBody(text[p..]));
        }
      }
      return false, out;
    }
    /** A value, one level further in; a nesting deeper than the limit is refused. */
    method Value() returns (found: bool, v: JVal)
      requires Ok()
      modifies this
      ensures Ok()
      ensures found <==> ReadValue(num, old(Ahead()), old(depth)).Some?
      ensures found ==> ReadValue(num, old(Ahead()), old(depth)).value == (v, Ahead()) && depth == old(depth)
      decreases |text| - p, 2
    {
      depth := depth + 1;
      if depth > MAX_DEPTH {
        return false, Null;
      }
      found, v := ValueInner();
      if found {
        depth := depth - 1;
      }
    }

    method ValueInner() returns (found: bool, v: JVal)
      requires Ok()
      modifies this
      ensures Ok()
      ensures found <==> ReadInner(num, old(Ahead()), old(depth)).Some?
      ensures found ==> ReadInner(num, old(Ahead()), old(depth)).value == (v, Ahead()) && depth == old(depth)
      decreases |text| - p, 1
    {
      v := Null;
      Ws();
      if p >= |text| {
        return false, v;
      }
      var c := text[p];
      ghost var s := text[p..];
      assert s[1..] == text[p + 1..];
      SkipTwice(old(Ahead()));
      if c == '"' {
        var t;
        found, t := ReadString();
        v := Str(t);
      } else if c == '{' {
        p := p + 1;
        found, v := Members();
      } else if c == '[' {
        p := p + 1;
        found, v := Items();
      } else if c == 't' || c == 'f' || c == 'n' {
        found := Literal(if c == 't' then "true" else if c == 'f' then "false" else "null");
        v := if c == 'n' then Null else Bool(c == 't');
      } else if c == '-' || '0' <= c <= '9' {
        var (x, used) := num(text[p..]);
        if used == 0 || used > |text| - p {
          return false, Num(x);
        }
        assert s[used..] == text[p + used..];
        p := p + used;
        return true, Num(x);
      } else {
        return false, v;
      }
    }

    method Literal(lit: string) returns (found: bool)
      requires Ok()
      modifies this`p
      ensures Ok() && (found <==> StartsWith(old(Ahead()), lit))
      ensures found ==> |lit| <= |old(Ahead())| && Ahead() == old(Ahead())[|lit|..]
    {
      found := |lit| <= |text| - p && text[p..][..|lit|] == lit;
      if found {
        assert text[p..][|lit|..] == text[p + |lit|..];
        p := p + |lit|;
      }
    }

    /** An object after its opening brace. */
    method Members() returns (found: bool, v: JVal)
      requires Ok()
      modifies this
      ensures Ok()
      ensures var s := old(Ahead());
              var r := match Eat(s, '}') case Some(rest) => Some((Obj([]), rest)) case None => ReadMembers(num, s,
                  old(depth), []);
              (found <==> r.Some?) && (found ==> r.value == (v, Ahead()) && depth == old(depth))
      decreases |text| - p, 0
    {
      var acc := [];
      v := Obj(acc);
      ghost var s := Ahead();
      var empty := EatByte('}');
      if empty {
        return true, v;
      }
      SkipMembers(num, s, depth);
      while true
        invariant Ok() && p >= old(p) && depth == old(depth)
        invariant ReadMembers(num, Ahead(), depth, acc) == ReadMembers(num, s, depth, [])
        decreases |text| - p
      {
        ghost var s0 := Ahead();
        var named, k := ReadString();
        if !named {
          return false, v;
        }
        var colon := EatByte(':');
        if !colon {
          return false, v;
        }
        var valued, child := Value();
        if !valued {
          return false, v;
        }
        ghost var s3 := Ahead();
        acc := acc + [(k, child)];
        var more := EatByte(',');
        if more {
          continue;
        }
        EatAfterSkip(s3, '}');
        found := EatByte('}');
        v := Obj(acc);
        return;
      }
    }

    /** An array after its opening bracket. */
    method Items() returns (found: bool, v: JVal)
      requires Ok()
      modifies this
      ensures Ok()
      ensures var s := old(Ahead());
              var r := match Eat(s, ']') case Some(rest) => Some((Arr([]), rest)) case None => ReadItems(num, s,
                  old(depth), []);
              (found <==> r.Some?) && (found ==> r.value == (v, Ahead()) && depth == old(depth))
      decreases |text| - p, 3
    {
      var acc := [];
      v := Arr(acc);
      ghost var s := Ahead();
      var empty := EatByte(']');
      if empty {
        return true, v;
      }
      SkipItems(num, s, depth);
      while true
        invariant Ok() && p >= old(p) && depth == old(depth)
        invariant ReadItems(num, Ahead(), depth, acc) == ReadItems(num, s, depth, [])
        decreases |text| - p
      {
        ghost var s0 := Ahead();
        var valued, child := Value();
        if !valued {
          return false, v;
        }
        ghost var s1 := Ahead();
        acc := acc + [child];
        var more := EatByte(',');
        if more {
          continue;
        }
        EatAfterSkip(s1, ']');
        found := EatByte(']');
        v := Arr(acc);
        return;
      }
    }
  }

  lemma SkipTwice(s: string)
    ensures SkipWs(SkipWs(s)) == SkipWs(s)
  {
  }

  lemma EatAfterSkip(s: string, c: char)
    ensures Eat(SkipWs(s), c) == Eat(s, c)
  {
    SkipTwice(s);
  }

  /** White space before a member does not matter. */
  lemma SkipMembers(num: Strtod, s: string, depth: nat)
    ensures ReadMembers(num, SkipWs(s), depth, []) == ReadMembers(num, s, depth, [])
  {
    EatAfterSkip(s, '"');
    assert ReadStr(SkipWs(s)) == ReadStr(s);
    hide ReadStr, Eat, ReadValue;
  }

  lemma SkipItems(num: Strtod, s: string, depth: nat)
    ensures ReadItems(num, SkipWs(s), depth, []) == ReadItems(num, s, depth, [])
  {
    SkipTwice(s);
    assert ReadValue(num, SkipWs(s), depth) == ReadValue(num, s, depth) by {
      hide ReadMembers, ReadItems, ReadStr, ReadNumber;
    }
    hide ReadValue, Eat;
  }

  /** A string body whose beginning has been read already. */
  function AfterPrefix(out: string, r: Option<(string, string)>): Option<(string, string)> {
    match r
    case None => None
    case Some((t, rest)) => Some((out + t, rest))
  }

  lemma AfterNothing(r: Option<(string, string)>)
    ensures AfterPrefix("", r) == r
  {
    if r.Some? {
      assert "" + r.value.0 == r.value.0;
    }
  }

  lemma AfterOne(out: string, c: char, r: Option<(string, string)>)
    ensures AfterPrefix(out + [c], r) == AfterPrefix(out, Prepend(c, r))
  {
    if r.Some? {
      assert (out + [c]) + r.value.0 == out + ([c] + r.value.0);
    }
  }
}
