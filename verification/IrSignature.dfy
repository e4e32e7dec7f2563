/**
 The printed form of an LLVM function signature, and the counter that recovers the number of
 arguments from it. Which characters count as blank is left open.
 */
module IrSignature {

  type Blanks = char -> bool

  predicate Opens(c: char) { c in "([{<" }
  predicate Closes(c: char) { c in ")]}>" }

  predicate Blank(space: Blanks, s: string) { forall i :: 0 <= i < |s| ==> space(s[i]) }

  // ----- printing -----

  /** An argument as the bindings give it; an unnamed one has the empty name. */
  datatype Argument = Argument(typ: string, name: string)

  function PrintArgument(a: Argument): string {
    if a.name != "" then a.typ + " %" + a.name else a.typ
  }

  function Join(parts: seq<string>): string {
    if parts == [] then "" else if |parts| == 1 then parts[0] else parts[0] + ", " + Join(parts[1..])
  }

  function BeforeParen(s: string): (r: string)
    ensures '(' !in r && r <= s
  {
    if s == "" || s[0] == '(' then "" else [s[0]] + BeforeParen(s[1..])
  }

  function Strip(space: Blanks, s: string): (r: string)
    ensures forall c :: c in r ==> c in s
    decreases |s|
  {
    if s == "" then s
    else if space(s[0]) then Strip(space, s[1..])
    else if space(s[|s| - 1]) then Strip(space, s[..|s| - 1])
    else s
  }

  function PrintSignature(space: Blanks, funcType: string, name: string, args: seq<Argument>): string {
    "define " + Strip(space, BeforeParen(funcType)) + " @" + name + "(" + Join(Printed(args)) + ")"
  }

  function Printed(args: seq<Argument>): seq<string> { seq(|args|, i requires 0 <= i < |args| => PrintArgument(args[i])) }

  // ----- counting -----

  /** The pieces between top-level commas, up to the first bracket that closes nothing. */
  function Pieces(s: string, depth: nat, buf: string): (r: seq<string>)
    ensures |r| >= 1
    decreases |s|
  {
    if s == "" || (Closes(s[0]) && depth == 0) then [buf]
    else if s[0] == ',' && depth == 0 then [buf] + Pieces(s[1..], depth, "")
    else Pieces(s[1..], DepthAfter(s[0], depth), buf + [s[0]])
  }

  function DepthAfter(c: char, depth: nat): nat
    requires Closes(c) ==> depth > 0
  {
    if Opens(c) then depth + 1 else if Closes(c) then depth - 1 else depth
  }

  function NonBlank(space: Blanks, parts: seq<string>): nat {
    if parts == [] then 0 else (if Blank(space, parts[0]) then 0 else 1) + NonBlank(space, parts[1..])
  }

  /** What follows the first parenthesis. */
  function AfterParen(s: string): string
    requires '(' in s
  {
    if s[0] == '(' then s[1..] else AfterParen(s[1..])
  }

  function ArgumentCount(space: Blanks, s: string): int {
    if '(' !in s then -1 else NonBlank(space, Pieces(AfterParen(s), 0, ""))
  }

  lemma {:induction false} AfterParenAt(s: string, k: nat)
    requires k < |s| && s[k] == '(' && '(' !in s[..k]
    ensures '(' in s && AfterParen(s) == s[k + 1..]
  {
    if k > 0 {
      assert s[..k][0] == s[0];
      assert s[1..][..k - 1] == s[..k][1..];
      AfterParenAt(s[1..], k - 1);
    }
  }

  lemma {:induction false} NonBlankAppend(space: Blanks, a: seq<string>, b: seq<string>)
    ensures NonBlank(space, a + b) == NonBlank(space, a) + NonBlank(space, b)
  {
    if a == [] {
      assert a + b == b;
    } else {
      assert (a + b)[1..] == a[1..] + b;
      NonBlankAppend(space, a[1..], b);
    }
  }

  method IndexOfParen(s: string) returns (k: nat)
    requires '(' in s
    ensures k < |s| && AfterParen(s) == s[k + 1..]
  {
    k := 0;
    while s[k] != '('
      invariant k < |s| && '(' in s[k..]
      invariant AfterParen(s) == AfterParen(s[k..])
      decreases |s| - k
    {
      assert s[k..][1..] == s[k + 1..];
      k := k + 1;
    }
    assert s[k..][1..] == s[k + 1..];
  }

  /** The scanning loop of `_count_ir_args`: the finished pieces, and the buffer at its end. */
  method Scan(inner: string) returns (parts: seq<string>, buf: string)
    ensures parts + [buf] == Pieces(inner, 0, "")
  {
    var depth, i := 0, 0;
    parts, buf := [], "";
    while i < |inner|
      invariant 0 <= i <= |inner| && depth >= 0
      invariant Pieces(inner, 0, "") == parts + Pieces(inner[i..], depth, buf)
    {
      var ch := inner[i];
      assert inner[i..][0] == ch && inner[i..][1..] == inner[i + 1..];
      if Opens(ch) {
        depth := depth + 1;
      } else if Closes(ch) {
        if depth == 0 { return; }
        depth := depth - 1;
      } else if ch == ',' && depth == 0 {
        parts, buf, i := parts + [buf], "", i + 1;
        continue;
      }
      buf, i := buf + [ch], i + 1;
    }
  }

  /** `_count_ir_args`. */
  method CountIrArgs(space: Blanks, sig: string) returns (n: int)
    ensures n == ArgumentCount(space, sig)
    ensures n == -1 <==> '(' !in sig
  {
    if sig == "" || '(' !in sig { return -1; }
    var start := IndexOfParen(sig);
    var parts, buf := Scan(sig[start + 1..]);
    hide Pieces, AfterParen;
    NonBlankAppend(space, parts, [buf]);
    assert NonBlank(space, [buf]) == if Blank(space, buf) then 0 else 1;
    if !Blank(space, buf) { parts := parts + [buf]; }
    n := 0;
    for k := 0 to |parts|
      invariant n == NonBlank(space, parts[..k])
    {
      NonBlankAppend(space, parts[..k], [parts[k]]);
      assert NonBlank(space, [parts[k]]) == if Blank(space, parts[k]) then 0 else 1;
      assert parts[..k + 1] == parts[..k] + [parts[k]];
      if !Blank(space, parts[k]) { n := n + 1; }
    }
    assert parts[..|parts|] == parts;
  }

  // ----- round trip -----

  /** Read from the given depth, every bracket is closed, and no comma stands outside brackets. */
  predicate OneArgument(s: string, depth: nat)
    decreases |s|
  {
    if s == "" then depth == 0
    else !(Closes(s[0]) && depth == 0) && !(s[0] == ',' && depth == 0) && OneArgument(s[1..], DepthAfter(s[0], depth))
  }

  /** The scan reads one argument into the buffer and is outside all brackets again. */
  lemma {:induction false} ReadsOne(s: string, depth: nat, buf: string, rest: string)
    requires OneArgument(s, depth)
    ensures Pieces(s + rest, depth, buf) == Pieces(rest, 0, buf + s)
    decreases |s|
  {
    if s == "" {
      assert s + rest == rest && buf + s == buf;
    } else {
      assert (s + rest)[0] == s[0] && (s + rest)[1..] == s[1..] + rest;
      ReadsOne(s[1..], DepthAfter(s[0], depth), buf + [s[0]], rest);
      assert buf + [s[0]] + s[1..] == buf + s;
    }
  }

  /** What the scan makes of a list: every piece but the first starts with the blank after the comma. */
  function Spaced(parts: seq<string>): (r: seq<string>)
    ensures |r| == |parts| && forall i :: 0 <= i < |parts| ==> r[i] == " " + parts[i]
  {
    if parts == [] then [] else [" " + parts[0]] + Spaced(parts[1..])
  }

  /** The scan of a list that a bracket closes. */
  lemma {:induction false} ReadsAll(parts: seq<string>, buf: string, rest: string)
    requires parts != [] && (forall i :: 0 <= i < |parts| ==> OneArgument(parts[i], 0))
    ensures Pieces(Join(parts) + ")" + rest, 0, buf) == [buf + parts[0]] + Spaced(parts[1..])
    decreases |parts|
  {
    if |parts| == 1 {
      assert Join(parts) + ")" + rest == parts[0] + (")" + rest);
      ReadsOne(parts[0], 0, buf, ")" + rest);
    } else {
      var tail := Join(parts[1..]) + ")" + rest;
      assert Join(parts) + ")" + rest == parts[0] + (", " + tail);
      ReadsOne(parts[0], 0, buf, ", " + tail);
      ReadsComma(tail, buf + parts[0]);
      ReadsAll(parts[1..], " ", rest);
    }
  }

  lemma ReadsComma(tail: string, buf: string)
    ensures Pieces(", " + tail, 0, buf) == [buf] + Pieces(tail, 0, " ")
  {
    var blank := " " + tail;
    assert (", " + tail)[1..] == blank && blank[1..] == tail && blank[0] == ' ';
    assert "" + [' '] == " ";
    assert Pieces(blank, 0, "") == Pieces(tail, 0, " ");
  }

  lemma {:induction false} NonBlankCounts(space: Blanks, parts: seq<string>)
    ensures NonBlank(space, parts) <= |parts|
    ensures NonBlank(space, parts) == |parts| <==> forall i :: 0 <= i < |parts| ==> !Blank(space, parts[i])
  {
    if parts != [] {
      NonBlankCounts(space, parts[1..]);
      assert forall i :: 0 <= i < |parts| ==> parts[i] == parts[0] || (i > 0 && parts[i] == parts[1..][i - 1]);
      assert forall i :: 0 <= i < |parts| - 1 ==> parts[1..][i] == parts[i + 1];
    }
  }

  lemma BlankPrefix(space: Blanks, s: string)
    requires space(' ')
    ensures Blank(space, " " + s) <==> Blank(space, s)
  {
    assert forall i :: 0 <= i < |s| ==> s[i] == (" " + s)[i + 1];
  }

  lemma HeadSkipped(head: string, inner: string)
    requires '(' !in head
    ensures '(' in head + "(" + inner && AfterParen(head + "(" + inner) == inner
  {
    var s := head + "(" + inner;
    assert s[..|head|] == head && s[|head|] == '(' && s[|head| + 1..] == inner;
    AfterParenAt(s, |head|);
  }

  ghost predicate NoneBlank(space: Blanks, parts: seq<string>) {
    forall i :: 0 <= i < |parts| ==> !Blank(space, parts[i])
  }

  lemma ListCount(space: Blanks, parts: seq<string>, rest: string)
    requires space(' ') && (forall i :: 0 <= i < |parts| ==> OneArgument(parts[i], 0))
    ensures var n := NonBlank(space, Pieces(Join(parts) + ")" + rest, 0, ""));
            n <= |parts| && (n == |parts| <==> NoneBlank(space, parts))
  {
    if parts == [] {
      assert (Join(parts) + ")" + rest)[0] == ')';
    } else {
      ReadsAll(parts, "", rest);
      hide Pieces, Join, OneArgument;
      var pieces := ["" + parts[0]] + Spaced(parts[1..]);
      NonBlankCounts(space, pieces);
      forall i | 0 <= i < |parts| ensures Blank(space, pieces[i]) <==> Blank(space, parts[i]) {
        BlankPrefix(space, parts[i]);
        assert i == 0 ==> pieces[i] == parts[i];
      }
    }
  }

  /**
   The count taken from a printed signature, whatever text follows it, is the number of
   arguments exactly when none of them is blank; a function without arguments counts zero.
   */
  lemma SignatureRoundTrip(space: Blanks, funcType: string, name: string, args: seq<Argument>, rest: string)
    requires '(' !in name && space(' ')
    requires forall i :: 0 <= i < |args| ==> OneArgument(PrintArgument(args[i]), 0)
    ensures var n := ArgumentCount(space, PrintSignature(space, funcType, name, args) + rest);
            0 <= n <= |args| && (n == |args| <==> NoneBlank(space, Printed(args)))
    ensures var sig := PrintSignature(space, funcType, name, args) + rest;
            '(' in sig && (args != [] ==> Pieces(AfterParen(sig), 0, "") == [PrintArgument(args[0])] + Spaced(Printed(args)[1..]))
  {
    var head := "define " + Strip(space, BeforeParen(funcType)) + " @" + name;
    var inner := Join(Printed(args)) + ")" + rest;
    assert PrintSignature(space, funcType, name, args) + rest == head + "(" + inner;
    HeadSkipped(head, inner);
    ListCount(space, Printed(args), rest);
    if args != [] {
      ReadsAll(Printed(args), "", rest);
      assert "" + Printed(args)[0] == PrintArgument(args[0]);
    }
  }

  /** A name with a parenthesis in it shifts the reading: here every argument is missed. */
  lemma NameMustHaveNoParen(space: Blanks, funcType: string, name: string, more: string, args: seq<Argument>)
    requires '(' !in name
    ensures ArgumentCount(space, PrintSignature(space, funcType, name + "()" + more, args)) == 0
  {
    var head := "define " + Strip(space, BeforeParen(funcType)) + " @" + name;
    var inner := ")" + more + "(" + Join(Printed(args)) + ")";
    assert PrintSignature(space, funcType, name + "()" + more, args) == head + "(" + inner;
    HeadSkipped(head, inner);
    assert Pieces(inner, 0, "") == [""];
    assert NonBlank(space, [""]) == 0;
  }

  lemma {:induction false} JoinMore(parts: seq<string>, last: string)
    requires parts != []
    ensures Join(parts + [last]) == Join(parts) + ", " + last
    decreases |parts|
  {
    if |parts| > 1 {
      JoinMore(parts[1..], last);
      assert (parts + [last])[1..] == parts[1..] + [last];
    }
  }

  lemma {:induction false} BeforeParenIs(s: string, tail: string)
    requires '(' !in s
    ensures BeforeParen(s + "(" + tail) == s
  {
    if s == "" {
      assert s + "(" + tail == "(" + tail;
    } else {
      assert (s + "(" + tail)[1..] == s[1..] + "(" + tail;
      BeforeParenIs(s[1..], tail);
    }
  }

  lemma {:induction false} StripIs(space: Blanks, a: string, s: string, b: string)
    requires Blank(space, a) && Blank(space, b) && s != "" && !space(s[0]) && !space(s[|s| - 1])
    ensures Strip(space, a + s + b) == s
    decreases |a| + |b|
  {
    var all := a + s + b;
    if a != "" {
      assert all[1..] == a[1..] + s + b && all[0] == a[0];
      StripIs(space, a[1..], s, b);
    } else if b != "" {
      assert all[..|all| - 1] == a + s + b[..|b| - 1] && all[|all| - 1] == b[|b| - 1] && all[0] == s[0];
      StripIs(space, a, s, b[..|b| - 1]);
    } else {
      assert all == s;
    }
  }

  /** The printed signature of a function with a named and an unnamed argument, the type of the result stripped of its blanks. */
  lemma SignatureIs(space: Blanks, a: string, ret: string, b: string, tail: string, name: string, typ: string, arg: string, typ2: string)
    requires Blank(space, a) && Blank(space, b) && '(' !in a + ret + b && ret != "" && !space(ret[0]) && !space(ret[|ret| - 1]) && arg != ""
    ensures PrintSignature(space, a + ret + b + "(" + tail, name, [Argument(typ, arg), Argument(typ2, "")])
            == "define " + ret + " @" + name + "(" + typ + " %" + arg + ", " + typ2 + ")"
  {
    var args := [Argument(typ, arg), Argument(typ2, "")];
    BeforeParenIs(a + ret + b, tail);
    StripIs(space, a, ret, b);
    assert Printed(args) == [typ + " %" + arg] + [typ2];
    JoinMore([typ + " %" + arg], typ2);
  }

  // ----- which characters group -----

  /** A text whose brackets are closed, from its beginning on: a character, or a group, and the rest. */
  datatype Text = End | Plain(c: char, rest: Text) | Group(open: char, inner: Text, close: char, more: Text)

  function Show(t: Text): string {
    match t
    case End => ""
    case Plain(c, rest) => [c] + Show(rest)
    case Group(open, inner, close, more) => [open] + Show(inner) + [close] + Show(more)
  }

  predicate IsBracket(c: char) { c in "()[]{}<>" }

  predicate IsPair(open: char, close: char) {
    [open, close] == "()" || [open, close] == "[]" || [open, close] == "{}" || [open, close] == "<>"
  }

  /** The groups are pairs of brackets, and outside groups there is no comma. */
  predicate WellFormed(t: Text, grouped: bool) {
    match t
    case End => true
    case Plain(c, rest) => !IsBracket(c) && (c == ',' ==> grouped) && WellFormed(rest, grouped)
    case Group(open, inner, close, more) => IsPair(open, close) && WellFormed(inner, true) && WellFormed(more, grouped)
  }

  lemma {:induction false} ReadsText(t: Text, depth: nat, s: string)
    requires WellFormed(t, depth > 0)
    ensures OneArgument(Show(t) + s, depth) <==> OneArgument(s, depth)
    decreases t
  {
    match t
    case End => assert Show(t) + s == s;
    case Plain(c, rest) =>
      assert (Show(t) + s)[0] == c && (Show(t) + s)[1..] == Show(rest) + s;
      ReadsText(rest, depth, s);
    case Group(open, inner, close, more) =>
      var tail := [close] + Show(more) + s;
      assert Show(t) + s == [open] + (Show(inner) + tail);
      assert tail == [close] + (Show(more) + s);
      ReadsText(inner, depth + 1, tail);
      ReadsText(more, depth, s);
      hide Show, WellFormed;
      ReadsGroup(open, close, depth, Show(inner) + tail, Show(more) + s);
  }

  /** A bracket leads one level down, and its partner back up. */
  lemma ReadsGroup(open: char, close: char, depth: nat, inner: string, more: string)
    requires IsPair(open, close)
    ensures OneArgument([open] + inner, depth) <==> OneArgument(inner, depth + 1)
    ensures OneArgument([close] + more, depth + 1) <==> OneArgument(more, depth)
  {
    assert ([open] + inner)[1..] == inner && ([close] + more)[1..] == more;
  }

  /** Round, square, curly and angle brackets group what is between them, nested to any depth, commas and all. */
  lemma TextIsOne(t: Text)
    requires WellFormed(t, false)
    ensures OneArgument(Show(t), 0)
  {
    ReadsText(t, 0, "");
    assert Show(t) + "" == Show(t);
  }

  function Shown(texts: seq<Text>): (r: seq<string>)
    ensures |r| == |texts| && forall i :: 0 <= i < |r| ==> r[i] == Show(texts[i])
  {
    seq(|texts|, i requires 0 <= i < |texts| => Show(texts[i]))
  }

  /** A list of such texts is counted right, whatever their groups hold. */
  lemma TextsCounted(space: Blanks, texts: seq<Text>, head: string, rest: string)
    requires '(' !in head && space(' ') && (forall i :: 0 <= i < |texts| ==> WellFormed(texts[i], false))
    ensures var n := ArgumentCount(space, head + "(" + (Join(Shown(texts)) + ")" + rest));
            0 <= n <= |texts| && (n == |texts| <==> NoneBlank(space, Shown(texts)))
  {
    forall i | 0 <= i < |texts| ensures OneArgument(Shown(texts)[i], 0) { TextIsOne(texts[i]); }
    HeadSkipped(head, Join(Shown(texts)) + ")" + rest);
    ListCount(space, Shown(texts), rest);
  }

  function Commas(s: string): nat {
    if s == "" then 0 else (if s[0] == ',' then 1 else 0) + Commas(s[1..])
  }

  /** No other character groups: without brackets every comma divides. */
  lemma {:induction false} CommasDivide(s: string, buf: string, rest: string)
    requires forall i :: 0 <= i < |s| ==> !IsBracket(s[i])
    ensures |Pieces(s + ")" + rest, 0, buf)| == Commas(s) + 1
    decreases |s|
  {
    var all := s + ")" + rest;
    if s == "" {
      assert all[0] == ')';
    } else {
      assert all[0] == s[0] && all[1..] == s[1..] + ")" + rest;
      CommasDivide(s[1..], if s[0] == ',' then "" else buf + [s[0]], rest);
    }
  }
}
