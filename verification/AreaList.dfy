/** m_bracketsStr2Ints: parsing a list of focus or metering areas, "(x1,y1,x2,y2,weight),...". */
module AreaList {
  import opened Bytes

  datatype Area = Area(x1: int, y1: int, x2: int, y2: int, weight: int)

  datatype Rect2 = Rect2(x1: int, y1: int, x2: int, y2: int)

  // ---------- the C library functions ----------

  /** strchr, as an index. */
  function IndexOf(s: string, c: char): (r: Option<nat>)
    ensures r.Some? ==> r.value < |s| && s[r.value] == c && c !in s[..r.value]
    ensures r.None? <==> c !in s
  {
    if s == [] then None
    else if s[0] == c then Some(0)
    else
      match IndexOf(s[1..], c)
      case None => None
      case Some(k) =>
        assert s[..k + 1] == [s[0]] + s[1..][..k];
        Some(k + 1)
  }

  /** The length of the part of `s` in front of the first comma. */
  function Span(s: string): (n: nat)
    ensures n <= |s| && ',' !in s[..n] && (n < |s| ==> s[n] == ',')
  {
    match IndexOf(s, ',')
    case None => |s|
    case Some(k) => k
  }

  /** strtok with separator ",": commas in front are skipped; the token and what follows it. */
  function StrTok(s: string): (r: Option<(string, string)>)
    ensures r.Some? ==> r.value.0 != [] && |r.value.1| < |s|
  {
    if s == [] then None
    else if s[0] == ',' then StrTok(s[1..])
    else Some((s[..Span(s)], s[Span(s)..]))
  }

  /** All tokens. */
  function Tokens(s: string): seq<string>
    decreases |s|
  {
    match StrTok(s)
    case None => []
    case Some((t, rest)) => [t] + Tokens(rest)
  }

  predicate IsDigit(c: char) {
    '0' <= c <= '9'
  }

  predicate IsSpace(c: char) {
    c == ' ' || ('\t' <= c <= '\r')
  }

  function Digits(s: string, acc: nat): nat {
    if s == [] || !IsDigit(s[0]) then acc else Digits(s[1..], 10 * acc + (s[0] as int - '0' as int))
  }

  /** atoi: blanks, a sign, digits; anything behind the digits is ignored. */
  function Atoi(s: string): int {
    if s == [] then 0
    else if IsSpace(s[0]) then Atoi(s[1..])
    else if s[0] == '-' then 0 - Digits(s[1..], 0)
    else if s[0] == '+' then Digits(s[1..], 0)
    else Digits(s, 0)
  }

  // ---------- the parser as a function ----------

  /** The first five numbers of a group; a missing fifth keeps what the scratch array held before. */
  function Numbers(ts: seq<string>, temp: seq<int>): seq<int>
    requires |ts| >= 4 && |temp| == 5
  {
    [Atoi(ts[0]), Atoi(ts[1]), Atoi(ts[2]), Atoi(ts[3]), if |ts| >= 5 then Atoi(ts[4]) else temp[4]]
  }

  function ToArea(t: seq<int>): Area
    requires |t| == 5
  {
    Area(t[0], t[1], t[2], t[3], t[4])
  }

  /** The next bracketed group: the index of its ")" and the tokens between the brackets, the last of which
      keeps the ")". */
  function Group(s: string): (r: Option<(nat, seq<string>)>)
    ensures r.Some? ==> r.value.0 < |s|
  {
    match IndexOf(s, '(')
    case None => None
    case Some(o) =>
      match IndexOf(s[o..], ')')
      case None => None
      case Some(c) => Some((o + c, Tokens(s[o + 1..o + c + 1])))
  }

  /** The areas found in `s`, at most `num`, with the scratch array `temp` carried along. */
  function Parse(s: string, num: nat, temp: seq<int>): seq<Area>
    requires |temp| == 5
    decreases num
  {
    if num == 0 then []
    else
      match Group(s)
      case None => []
      case Some((close, ts)) =>
        if |ts| < 4 then []
        else [ToArea(Numbers(ts, temp))] + Parse(s[close..], num - 1, Numbers(ts, temp))
  }

  // ---------- the printer ----------

  function DigitChar(d: nat): char
    requires d < 10
  {
    ['0', '1', '2', '3', '4', '5', '6', '7', '8', '9'][d]
  }

  function PrintNat(n: nat): (s: string)
    ensures s != [] && forall c :: c in s ==> IsDigit(c)
  {
    if n < 10 then [DigitChar(n)] else PrintNat(n / 10) + [DigitChar(n % 10)]
  }

  function PrintInt(n: int): (s: string)
    ensures s != [] && forall c :: c in s ==> IsDigit(c) || c == '-'
  {
    if n < 0 then "-" + PrintNat(-n) else PrintNat(n)
  }

  function PrintBody(a: Area): string {
    PrintInt(a.x1) + "," + PrintInt(a.y1) + "," + PrintInt(a.x2) + "," + PrintInt(a.y2) + "," + PrintInt(a.weight)
  }

  /** An area in the documented form. */
  function PrintArea(a: Area): string {
    "(" + PrintBody(a) + ")"
  }

  /** Areas with text between them; in the documented form that text is a comma. */
  datatype Item = Item(gap: string, area: Area)

  function PrintItems(items: seq<Item>, last: string): string {
    if items == [] then last else items[0].gap + PrintArea(items[0].area) + PrintItems(items[1..], last)
  }

  predicate GapsOk(items: seq<Item>, last: string) {
    '(' !in last && forall i :: i in items ==> '(' !in i.gap
  }

  function AreasOf(items: seq<Item>): seq<Area> {
    if items == [] then [] else [items[0].area] + AreasOf(items[1..])
  }

  /** The first `n` elements, or all of them. */
  function Prefix<T>(s: seq<T>, n: nat): seq<T> {
    if n < |s| then s[..n] else s
  }

  // ---------- atoi undoes printing ----------

  lemma {:induction false} DigitsAppend(a: string, b: string, acc: nat)
    requires forall c :: c in a ==> IsDigit(c)
    ensures Digits(a + b, acc) == Digits(b, Digits(a, acc))
    decreases |a|
  {
    if a == [] {
      assert a + b == b;
    } else {
      assert IsDigit(a[0]) && (a + b)[1..] == a[1..] + b;
      DigitsAppend(a[1..], b, 10 * acc + (a[0] as int - '0' as int));
    }
  }

  lemma {:induction false} DigitsOfPrint(n: nat)
    ensures Digits(PrintNat(n), 0) == n
  {
    if n >= 10 {
      DigitsOfPrint(n / 10);
      DigitsAppend(PrintNat(n / 10), [DigitChar(n % 10)], 0);
      OneDigit(n % 10, n / 10);
    } else {
      OneDigit(n, 0);
    }
  }

  lemma OneDigit(d: nat, acc: nat)
    requires d < 10
    ensures Digits([DigitChar(d)], acc) == 10 * acc + d
  {
    assert [DigitChar(d)][1..] == [];
  }

  /** Reading a printed number stops at the first character that is not a digit. */
  lemma AtoiOfPrint(n: int, rest: string)
    requires rest == [] || !IsDigit(rest[0])
    ensures Atoi(PrintInt(n) + rest) == n
  {
    var m := if n < 0 then -n else n;
    var p := PrintNat(m);
    DigitsOfPrint(m);
    DigitsAppend(p, rest, 0);
    assert p[0] in p;
    if n < 0 {
      assert ("-" + p + rest)[1..] == p + rest;
    }
  }

  // ---------- splitting undoes joining ----------

  lemma {:induction false} IndexOfAt(a: string, c: char, b: string)
    requires c !in a
    ensures IndexOf(a + [c] + b, c) == Some(|a|)
  {
    var s := a + [c] + b;
    if a == [] {
      assert s[0] == c;
    } else {
      assert s[0] == a[0] && a[0] in a && s[1..] == a[1..] + [c] + b;
      IndexOfAt(a[1..], c, b);
    }
  }

  lemma TokensJoin(t: string, rest: string)
    requires t != [] && ',' !in t
    ensures Tokens(t + "," + rest) == [t] + Tokens(rest)
  {
    var s := t + "," + rest;
    IndexOfAt(t, ',', rest);
    assert s[0] == t[0];
    assert s[..|t|] == t && s[|t|..] == "," + rest;
    assert ("," + rest)[1..] == rest;
    assert StrTok("," + rest) == StrTok(rest);
  }

  lemma TokensLast(t: string)
    requires t != [] && ',' !in t
    ensures Tokens(t) == [t]
  {
    assert t[0] in t;
    assert t[..|t|] == t;
    assert Tokens(t[|t|..]) == [];
  }

  lemma NoSeparators(n: int)
    ensures ',' !in PrintInt(n) && '(' !in PrintInt(n) && ')' !in PrintInt(n)
  {
  }

  /** The tokens of a printed group are its five numbers. */
  lemma BodyTokens(a: Area)
    ensures Tokens(PrintBody(a) + ")")
      == [PrintInt(a.x1), PrintInt(a.y1), PrintInt(a.x2), PrintInt(a.y2), PrintInt(a.weight) + ")"]
  {
    hide PrintInt, Tokens;
    NoSeparators(a.x1);
    NoSeparators(a.y1);
    NoSeparators(a.x2);
    NoSeparators(a.y2);
    NoSeparators(a.weight);
    var t5 := PrintInt(a.weight) + ")";
    var t4 := PrintInt(a.y2) + "," + t5;
    var t3 := PrintInt(a.x2) + "," + t4;
    var t2 := PrintInt(a.y1) + "," + t3;
    assert PrintBody(a) + ")" == PrintInt(a.x1) + "," + t2;
    TokensJoin(PrintInt(a.x1), t2);
    TokensJoin(PrintInt(a.y1), t3);
    TokensJoin(PrintInt(a.x2), t4);
    TokensJoin(PrintInt(a.y2), t5);
    TokensLast(t5);
  }

  lemma BodyNumbers(a: Area, temp: seq<int>)
    requires |temp| == 5
    ensures var ts := Tokens(PrintBody(a) + ")"); |ts| >= 4 && ToArea(Numbers(ts, temp)) == a
  {
    hide PrintInt, Tokens, Atoi;
    BodyTokens(a);
    AtoiOfPrint(a.x1, "");
    AtoiOfPrint(a.y1, "");
    AtoiOfPrint(a.x2, "");
    AtoiOfPrint(a.y2, "");
    AtoiOfPrint(a.weight, ")");
    assert PrintInt(a.x1) + "" == PrintInt(a.x1) && PrintInt(a.y1) + "" == PrintInt(a.y1)
      && PrintInt(a.x2) + "" == PrintInt(a.x2) && PrintInt(a.y2) + "" == PrintInt(a.y2);
  }

  lemma BodyPlain(a: Area)
    ensures ')' !in PrintBody(a) && '(' !in PrintBody(a)
  {
    hide PrintInt;
    NoSeparators(a.x1);
    NoSeparators(a.y1);
    NoSeparators(a.x2);
    NoSeparators(a.y2);
    NoSeparators(a.weight);
  }

  lemma GroupSlices(gap: string, b: string, rest: string)
    ensures var s := gap + ("(" + b + ")") + rest;
      && s == gap + ['('] + (b + ")" + rest)
      && s[|gap|..] == ("(" + b) + [')'] + rest
      && s[|gap| + 1..|gap| + |b| + 2] == b + ")"
      && s[|gap| + |b| + 1..] == ")" + rest
  {
    var s := gap + ("(" + b + ")") + rest;
    assert s[|gap|..] == "(" + b + ")" + rest;
    assert s[|gap| + 1..] == b + ")" + rest;
  }

  /** The first group behind text without an opening bracket. */
  lemma FirstGroup(gap: string, b: string, rest: string)
    requires '(' !in gap && ')' !in b
    ensures var s := gap + ("(" + b + ")") + rest;
      && Group(s).Some? && Group(s).value.0 == |gap| + |b| + 1 && Group(s).value.1 == Tokens(b + ")")
      && s[|gap| + |b| + 1..] == ")" + rest
  {
    hide IndexOf, Tokens, Group;
    var s := gap + ("(" + b + ")") + rest;
    BracketsAt(gap, b, rest);
    GroupIs(s, |gap|, |b| + 1);
    assert s[|gap| + 1..|gap| + (|b| + 1) + 1] == b + ")" && s[|gap| + |b| + 1..] == ")" + rest by {
      GroupSlices(gap, b, rest);
    }
    assert Tokens(s[|gap| + 1..|gap| + (|b| + 1) + 1]) == Tokens(b + ")");
  }

  lemma BracketsAt(gap: string, b: string, rest: string)
    requires '(' !in gap && ')' !in b
    ensures var s := gap + ("(" + b + ")") + rest;
      IndexOf(s, '(') == Some(|gap|) && IndexOf(s[|gap|..], ')') == Some(|b| + 1)
  {
    hide IndexOf;
    GroupSlices(gap, b, rest);
    IndexOfAt(gap, '(', b + ")" + rest);
    IndexOfAt("(" + b, ')', rest);
  }

  lemma GroupIs(s: string, o: nat, c: nat)
    requires IndexOf(s, '(') == Some(o) && IndexOf(s[o..], ')') == Some(c)
    ensures o + c < |s| && Group(s).Some?
    ensures Group(s).value.0 == o + c && Group(s).value.1 == Tokens(s[o + 1..o + c + 1])
  {
    hide Tokens, IndexOf;
  }

  /** Parsing one group. */
  lemma ParseGroup(gap: string, b: string, rest: string, num: nat, temp: seq<int>)
    requires |temp| == 5 && '(' !in gap && ')' !in b && num > 0 && |Tokens(b + ")")| >= 4
    ensures var t := Numbers(Tokens(b + ")"), temp);
      && |t| == 5
      && Parse(gap + ("(" + b + ")") + rest, num, temp) == [ToArea(t)] + Parse(")" + rest, num - 1, t)
  {
    hide Group, Tokens, Atoi, ToArea;
    FirstGroup(gap, b, rest);
  }

  lemma {:induction false} IndexOfNone(s: string, c: char)
    requires c !in s
    ensures IndexOf(s, c) == None
  {
  }

  /** Parsing undoes printing; `before` is what is left of the previous group. */
  lemma {:induction false} ParseInvertsPrint(before: string, items: seq<Item>, last: string, num: nat, temp: seq<int>)
    requires |temp| == 5 && '(' !in before && GapsOk(items, last)
    ensures Parse(before + PrintItems(items, last), num, temp)
      == Prefix(AreasOf(items), num)
    decreases |items|
  {
    hide PrintBody, Parse, Tokens, Numbers, ToArea;
    if num == 0 {
      ParseNothing(before + PrintItems(items, last), num, temp);
    } else if items == [] {
      ParseNothing(before + last, num, temp);
    } else {
      var g, a, rest := before + items[0].gap, items[0].area, PrintItems(items[1..], last);
      assert items[0] in items;
      Associative(before, items[0].gap, PrintArea(a));
      Associative(before, items[0].gap + PrintArea(a), rest);
      BodyPlain(a);
      BodyNumbers(a, temp);
      ParseGroup(g, PrintBody(a), rest, num, temp);
      var t := Numbers(Tokens(PrintBody(a) + ")"), temp);
      ParseInvertsPrint(")", items[1..], last, num - 1, t);
    }
  }

  lemma ParseNothing(s: string, num: nat, temp: seq<int>)
    requires |temp| == 5 && (num == 0 || '(' !in s)
    ensures Parse(s, num, temp) == []
  {
    if num > 0 {
      IndexOfNone(s, '(');
    }
  }

  /** Main result: an area list printed in the documented form, or with any other text without "(" between the
      areas, parses back to exactly its first `num` areas. */
  lemma ParseInverts(items: seq<Item>, last: string, num: nat, temp: seq<int>)
    requires |temp| == 5 && GapsOk(items, last)
    ensures Parse(PrintItems(items, last), num, temp) == Prefix(AreasOf(items), num)
  {
    hide Parse, PrintItems, AreasOf, GapsOk;
    assert "" + PrintItems(items, last) == PrintItems(items, last);
    ParseInvertsPrint("", items, last, num, temp);
  }

  /** The group of the four numbers of a rectangle, without a weight. */
  function PrintFour(a: Area): string {
    PrintInt(a.x1) + "," + PrintInt(a.y1) + "," + PrintInt(a.x2) + "," + PrintInt(a.y2)
  }

  /** A group of only four numbers is accepted as well: its weight is whatever the scratch array held. */
  lemma FourNumbersParsed(gap: string, a: Area, rest: string, num: nat, temp: seq<int>)
    requires |temp| == 5 && '(' !in gap && num > 0
    ensures var r := Parse(gap + ("(" + PrintFour(a) + ")") + rest, num, temp);
      r != [] && r[0] == a.(weight := temp[4])
  {
    hide PrintInt, Tokens, Parse, Atoi;
    NoSeparators(a.x1);
    NoSeparators(a.y1);
    NoSeparators(a.x2);
    NoSeparators(a.y2);
    var t4 := PrintInt(a.y2) + ")";
    var t3 := PrintInt(a.x2) + "," + t4;
    var t2 := PrintInt(a.y1) + "," + t3;
    var b := PrintFour(a);
    assert b + ")" == PrintInt(a.x1) + "," + t2;
    TokensJoin(PrintInt(a.x1), t2);
    TokensJoin(PrintInt(a.y1), t3);
    TokensJoin(PrintInt(a.x2), t4);
    TokensLast(t4);
    AtoiOfPrint(a.x1, "");
    AtoiOfPrint(a.y1, "");
    AtoiOfPrint(a.x2, "");
    AtoiOfPrint(a.y2, ")");
    assert PrintInt(a.x1) + "" == PrintInt(a.x1) && PrintInt(a.y1) + "" == PrintInt(a.y1)
      && PrintInt(a.x2) + "" == PrintInt(a.x2);
    ParseGroup(gap, b, rest, num, temp);
  }

  /** Behind another group that weight is the one of the group before; the first group of a list gets what the
      uninitialised scratch array happens to hold. */
  lemma FourNumbersKeepTheWeight(before: string, a: Area, gap: string, b: Area, rest: string, num: nat, temp: seq<int>)
    requires |temp| == 5 && '(' !in before && '(' !in gap
    ensures num > 1 ==>
      var r := Parse(before + PrintArea(a) + (gap + ("(" + PrintFour(b) + ")") + rest), num, temp);
      |r| > 1 && r[0] == a && r[1] == b.(weight := a.weight)
    ensures num > 0 ==>
      var r := Parse(gap + ("(" + PrintFour(b) + ")") + rest, num, temp);
      r != [] && r[0] == b.(weight := temp[4])
  {
    hide PrintBody, PrintFour, Parse, Tokens, Numbers;
    if num > 0 {
      FourNumbersParsed(gap, b, rest, num, temp);
    }
    if num > 1 {
      var s := gap + ("(" + PrintFour(b) + ")") + rest;
      BodyPlain(a);
      BodyNumbers(a, temp);
      ParseGroup(before, PrintBody(a), s, num, temp);
      var t := Numbers(Tokens(PrintBody(a) + ")"), temp);
      FourNumbersParsed(")" + gap, b, rest, num - 1, t);
      Associative(")", gap, "(" + PrintFour(b) + ")");
      Associative(")", gap + ("(" + PrintFour(b) + ")"), rest);
    }
  }

  /** A group of more than five numbers: those behind the weight are ignored. */
  lemma MoreNumbersAreIgnored(gap: string, a: Area, more: string, rest: string, num: nat, temp: seq<int>)
    requires |temp| == 5 && '(' !in gap && ')' !in more && num > 0
    ensures var r := Parse(gap + ("(" + (PrintBody(a) + "," + more) + ")") + rest, num, temp);
      r == [a] + Parse(")" + rest, num - 1, [a.x1, a.y1, a.x2, a.y2, a.weight])
  {
    var b := PrintBody(a) + "," + more;
    assert ')' !in b by { BodyPlain(a); }
    MoreTokens(a, more);
    assert b + ")" == PrintBody(a) + "," + more + ")";
    var first := [PrintInt(a.x1), PrintInt(a.y1), PrintInt(a.x2), PrintInt(a.y2), PrintInt(a.weight)];
    hide PrintBody, PrintInt, Tokens, Parse, Atoi;
    FirstFive(a, first, Tokens(more + ")"), temp);
    ParseGroup(gap, b, rest, num, temp);
  }

  lemma FirstFive(a: Area, first: seq<string>, more: seq<string>, temp: seq<int>)
    requires |temp| == 5
    requires first == [PrintInt(a.x1), PrintInt(a.y1), PrintInt(a.x2), PrintInt(a.y2), PrintInt(a.weight)]
    ensures Numbers(first + more, temp) == [a.x1, a.y1, a.x2, a.y2, a.weight]
  {
    hide PrintInt, Atoi;
    AtoiOfInt(a.x1);
    AtoiOfInt(a.y1);
    AtoiOfInt(a.x2);
    AtoiOfInt(a.y2);
    AtoiOfInt(a.weight);
  }

  lemma AtoiOfInt(n: int)
    ensures Atoi(PrintInt(n)) == n
  {
    hide PrintInt, Atoi;
    AtoiOfPrint(n, "");
    assert PrintInt(n) + "" == PrintInt(n);
  }

  lemma MoreTokens(a: Area, more: string)
    ensures Tokens(PrintBody(a) + "," + more + ")")
      == [PrintInt(a.x1), PrintInt(a.y1), PrintInt(a.x2), PrintInt(a.y2), PrintInt(a.weight)] + Tokens(more + ")")
  {
    hide PrintInt, Tokens;
    NoSeparators(a.x1);
    NoSeparators(a.y1);
    NoSeparators(a.x2);
    NoSeparators(a.y2);
    NoSeparators(a.weight);
    var t5 := PrintInt(a.weight) + "," + (more + ")");
    var t4 := PrintInt(a.y2) + "," + t5;
    var t3 := PrintInt(a.x2) + "," + t4;
    var t2 := PrintInt(a.y1) + "," + t3;
    assert PrintBody(a) + "," + more + ")" == PrintInt(a.x1) + "," + t2;
    TokensJoin(PrintInt(a.x1), t2);
    TokensJoin(PrintInt(a.y1), t3);
    TokensJoin(PrintInt(a.x2), t4);
    TokensJoin(PrintInt(a.y2), t5);
    TokensJoin(PrintInt(a.weight), more + ")");
  }

  /** A group with fewer than three commas ends the list: it and everything behind it is left out. */
  lemma ShortGroupEnds(gap: string, b: string, rest: string, num: nat, temp: seq<int>)
    requires |temp| == 5 && '(' !in gap && ')' !in b && Commas(b) < 3
    ensures Parse(gap + ("(" + b + ")") + rest, num, temp) == []
  {
    hide Group, Tokens, IndexOf;
    FirstGroup(gap, b, rest);
    FewTokens(b + ")");
    CommasAppend(b);
  }

  function Commas(s: string): nat {
    if s == [] then 0 else (if s[0] == ',' then 1 else 0) + Commas(s[1..])
  }

  lemma {:induction false} CommasAppend(b: string)
    ensures Commas(b + ")") == Commas(b)
  {
    if b != [] {
      assert (b + ")")[0] == b[0] && (b + ")")[1..] == b[1..] + ")";
      CommasAppend(b[1..]);
    } else {
      assert b + ")" == ")" && (")")[1..] == [];
    }
  }

  /** Every token but the first has a comma in front. */
  lemma {:induction false} FewTokens(s: string)
    ensures |Tokens(s)| <= Commas(s) + 1
    ensures s != [] && s[0] == ',' ==> |Tokens(s)| <= Commas(s)
    decreases |s|
  {
    if s != [] && s[0] == ',' {
      FewTokens(s[1..]);
      assert StrTok(s) == StrTok(s[1..]);
    } else if s != [] {
      var n := Span(s);
      FewTokens(s[n..]);
      CommasBehind(s, n);
    }
  }

  lemma {:induction false} CommasBehind(s: string, n: nat)
    requires n <= |s| && ',' !in s[..n]
    ensures Commas(s) == Commas(s[n..])
  {
    if n > 0 {
      assert s[..n][0] == s[0] && s[1..][..n - 1] == s[..n][1..] && s[1..][n - 1..] == s[n..];
      CommasBehind(s[1..], n - 1);
    } else {
      assert s[0..] == s;
    }
  }

  /** atoi in front of a printed number: blanks are skipped, and a plus sign is taken. */
  lemma {:induction false} AtoiSkips(blanks: string, n: nat, rest: string)
    requires forall c :: c in blanks ==> c in {' ', '\t', '\n', (11 as char), (12 as char), '\r'}
    requires rest == [] || !('0' <= rest[0] <= '9')
    ensures Atoi(blanks + "+" + PrintInt(n) + rest) == n == Atoi(blanks + PrintInt(n) + rest)
  {
    if blanks == [] {
      assert [] + "+" + PrintInt(n) + rest == "+" + (PrintInt(n) + rest);
      assert [] + PrintInt(n) + rest == PrintInt(n) + rest;
      AtoiOfPrint(n, rest);
      DigitsOfPrint(n);
      DigitsAppend(PrintNat(n), rest, 0);
      assert ("+" + (PrintInt(n) + rest))[1..] == PrintInt(n) + rest;
    } else {
      var s, t := blanks + "+" + PrintInt(n) + rest, blanks + PrintInt(n) + rest;
      assert blanks[0] in blanks && forall c :: c in blanks[1..] ==> c in blanks;
      assert s[0] == t[0] == blanks[0];
      assert s[1..] == blanks[1..] + "+" + PrintInt(n) + rest && t[1..] == blanks[1..] + PrintInt(n) + rest;
      AtoiSkips(blanks[1..], n, rest);
    }
  }

  // ---------- the code ----------

  /** m_subBracketsStr2Ints on the group `str`, which starts with "(" and ends with its first ")". */
  method SubBracketsToInts(num: nat, str: string, arr: array<int>) returns (ok: bool)
    requires num == 5 <= arr.Length && |str| >= 2 && |str| <= 127
    requires IndexOf(str, '(') == Some(0) && IndexOf(str, ')') == Some(|str| - 1)
    modifies arr
    ensures ok == (|Tokens(str[1..])| >= 4)
    ensures ok ==> arr[..5] == Numbers(Tokens(str[1..]), old(arr[..5]))
  {
    hide Atoi, StrTok, Tokens;
    var open := IndexOf(str, '(').value;
    var close := IndexOf(str[open..], ')').value;
    ghost var ts := Tokens(str[1..]);
    var buf := str[open + 1..close + 1];
    assert buf == str[1..];
    TokensUnfold(buf);
    var next := StrTok(buf);
    if next == None {
      return false;
    }
    arr[0] := Atoi(next.value.0);
    buf := next.value.1;
    var i := 1;
    while i < num
      invariant 1 <= i <= 5 && i <= |ts| && Tokens(buf) == ts[i..]
      invariant forall k :: 0 <= k < i ==> arr[k] == Atoi(ts[k])
      invariant forall k :: i <= k < arr.Length ==> arr[k] == old(arr[k])
    {
      TokensUnfold(buf);
      next := StrTok(buf);
      if next == None {
        if i < num - 1 {
          return false;
        }
        break;
      }
      arr[i] := Atoi(next.value.0);
      buf := next.value.1;
      i := i + 1;
    }
    ok := true;
  }

  lemma TokensUnfold(s: string)
    ensures StrTok(s).None? ==> Tokens(s) == []
    ensures StrTok(s).Some? ==> Tokens(s) == [StrTok(s).value.0] + Tokens(StrTok(s).value.1)
  {
    hide StrTok;
  }

  /** Every bracketed group fits the 128-byte scratch string. */
  ghost predicate GroupsFit(s: string) {
    forall o, c :: 0 <= o < c < |s| && s[o] == '(' && s[c] == ')' && ')' !in s[o..c] ==> c - o < 127
  }

  lemma GroupFits(s: string, cur: nat, o: nat, c: nat)
    requires GroupsFit(s) && cur <= |s|
    requires IndexOf(s[cur..], '(') == Some(o) && cur + o <= |s| && IndexOf(s[cur + o..], ')') == Some(c)
    ensures 0 < c < 127 && cur + o + c < |s|
    ensures s[cur..][o..] == s[cur + o..]
  {
    hide IndexOf;
    var a := cur + o;
    assert s[cur..][o..] == s[a..];
    assert s[a] == s[cur..][o] == '(' && s[a + c] == s[a..][c] == ')';
    assert s[a..a + c] == s[a..][..c];
  }

  /** A group cut out, with its brackets. */
  lemma GroupCut(s: string, c: nat)
    requires s != [] && s[0] == '(' && IndexOf(s, ')') == Some(c)
    ensures 0 < c < |s|
    ensures var g := s[..c + 1];
      && |g| == c + 1 && g[1..] == s[1..c + 1]
      && IndexOf(g, '(') == Some(0) && IndexOf(g, ')') == Some(c)
  {
    var g := s[..c + 1];
    assert g == s[..c] + [')'] + "";
    IndexOfAt(s[..c], ')', "");
  }

  /** The next group behind `cur` is the one between these two brackets. */
  ghost predicate GroupAt(str: string, cur: nat, open: nat, close: nat) {
    && cur <= open < close < |str| && close - open < 127
    && IndexOf(str[open..close + 1], '(') == Some(0) && IndexOf(str[open..close + 1], ')') == Some(close - open)
    && Group(str[cur..]).Some? && Group(str[cur..]).value.0 == close - cur
    && Group(str[cur..]).value.1 == Tokens(str[open..close + 1][1..])
    && str[cur..][close - cur..] == str[close..]
  }

  /** The group that strchr finds is the one Group finds. */
  lemma GroupFound(s: string, cur: nat, o: nat, c: nat)
    requires cur <= |s|
    requires IndexOf(s[cur..], '(') == Some(o) && cur + o <= |s| && IndexOf(s[cur + o..], ')') == Some(c)
    requires s[cur..][o..] == s[cur + o..] && cur + o + c < |s| && 0 < c < 127
    ensures GroupAt(s, cur, cur + o, cur + o + c)
  {
    hide Tokens, Group, IndexOf;
    var a := cur + o;
    assert s[a] == s[cur..][o] == '(';
    GroupCut(s[a..], c);
    GroupSlicesAt(s, cur, o, c);
    GroupIs(s[cur..], o, c);
  }

  /** The same slices, seen from the string, from the cursor and from the bracket. */
  lemma GroupSlicesAt(s: string, cur: nat, o: nat, c: nat)
    requires cur + o + c < |s|
    ensures s[cur + o..][..c + 1] == s[cur + o..cur + o + c + 1]
    ensures s[cur..][o + 1..o + c + 1] == s[cur + o..][1..c + 1]
    ensures s[cur..][o + c..] == s[cur + o + c..]
  {
  }

  /** The two strchr calls: where the next group's brackets are. */
  method FindBrackets(str: string, cur: nat) returns (brackets: Option<(nat, nat)>)
    requires GroupsFit(str) && cur <= |str|
    ensures brackets.None? ==> Group(str[cur..]).None?
    ensures brackets.Some? ==> GroupAt(str, cur, brackets.value.0, brackets.value.1)
  {
    hide Group, Tokens, IndexOf, GroupsFit, GroupAt;
    var open := IndexOf(str[cur..], '(');
    if open == None {
      GroupNone(str[cur..]);
      return None;
    }
    var at := cur + open.value;
    var end := IndexOf(str[at..], ')');
    if end == None {
      assert str[cur..][open.value..] == str[at..];
      GroupNone(str[cur..]);
      return None;
    }
    GroupFits(str, cur, open.value, end.value);
    GroupFound(str, cur, open.value, end.value);
    brackets := Some((at, at + end.value));
  }

  /** The next group behind index `cur`, its numbers put into the scratch array. */
  method NextGroup(str: string, cur: nat, tempArray: array<int>, ghost num: nat) returns (found: bool, close: nat)
    requires GroupsFit(str) && cur <= |str| && tempArray.Length == 5 && num > 0
    modifies tempArray
    ensures found ==> close <= |str|
    ensures var r := Parse(str[cur..], num, old(tempArray[..]));
      r == if found then [ToArea(tempArray[..])] + Parse(str[close..], num - 1, tempArray[..]) else []
  {
    hide Group, Tokens, IndexOf, GroupsFit, Parse, Numbers, ToArea;
    found, close := false, 0;
    ghost var before := tempArray[..];
    var brackets := FindBrackets(str, cur);
    if brackets == None {
      ParseEmpty(str[cur..], num, before);
      return;
    }
    var open := brackets.value.0;
    close := brackets.value.1;
    var buf := str[open..close + 1];
    found := SubBracketsToInts(5, buf, tempArray);
    assert before[..5] == before && tempArray[..5] == tempArray[..];
    ParseUnfold(str[cur..], num, before);
  }

  /** m_bracketsStr2Ints. `scratch` is what the uninitialised scratch array happens to hold. */
  method BracketsToInts(str: string, num: int, rect2s: array<Rect2>, weights: array<int>, scratch: seq<int>)
    returns (n: nat)
    requires GroupsFit(str) && |scratch| == 5 && num <= rect2s.Length && num <= weights.Length
    modifies rect2s, weights
    ensures var r := Parse(str, if num < 0 then 0 else num, scratch);
      && n == |r| && (num >= 0 ==> n <= num) && n <= rect2s.Length && n <= weights.Length
      && (forall i :: 0 <= i < n ==> rect2s[i] == Rect2(r[i].x1, r[i].y1, r[i].x2, r[i].y2))
      && (forall i :: 0 <= i < n ==> weights[i] == r[i].weight)
    ensures forall i :: n <= i < rect2s.Length ==> rect2s[i] == old(rect2s[i])
    ensures forall i :: n <= i < weights.Length ==> weights[i] == old(weights[i])
  {
    hide Group, GroupsFit, Parse;
    var tempArray := new int[5](i requires 0 <= i < 5 => scratch[i]);
    assert tempArray[..] == scratch;
    n := 0;
    var cur: nat := 0;
    ghost var done: seq<Area> := [];
    ghost var limit := if num < 0 then 0 else num;
    assert str[0..] == str;
    var i := 0;
    while i < num
      invariant 0 <= i <= limit && n == i == |done| && cur <= |str|
      invariant Parse(str, limit, scratch) == done + Parse(str[cur..], limit - i, tempArray[..])
      invariant forall k :: 0 <= k < n ==> rect2s[k] == Rect2(done[k].x1, done[k].y1, done[k].x2, done[k].y2)
      invariant forall k :: 0 <= k < n ==> weights[k] == done[k].weight
      invariant forall k :: n <= k < rect2s.Length ==> rect2s[k] == old(rect2s[k])
      invariant forall k :: n <= k < weights.Length ==> weights[k] == old(weights[k])
    {
      ghost var before := tempArray[..];
      var found, close := NextGroup(str, cur, tempArray, limit - i);
      if !found {
        assert Parse(str, limit, scratch) == done;
        return;
      }
      rect2s[i] := Rect2(tempArray[0], tempArray[1], tempArray[2], tempArray[3]);
      weights[i] := tempArray[4];
      n := n + 1;
      cur := close;
      Associative(done, [ToArea(tempArray[..])], Parse(str[cur..], limit - i - 1, tempArray[..]));
      done := done + [ToArea(tempArray[..])];
      i := i + 1;
    }
    ParseEmpty(str[cur..], 0, tempArray[..]);
    assert Parse(str, limit, scratch) == done;
  }

  lemma ParseEmpty(s: string, num: nat, temp: seq<int>)
    requires |temp| == 5 && (num == 0 || Group(s) == None)
    ensures Parse(s, num, temp) == []
  {
    hide Group;
  }

  lemma GroupNone(s: string)
    requires IndexOf(s, '(') == None || IndexOf(s[IndexOf(s, '(').value..], ')') == None
    ensures Group(s) == None
  {
  }

  lemma ParseUnfold(s: string, num: nat, temp: seq<int>)
    requires |temp| == 5 && num > 0 && Group(s).Some?
    ensures var (close, ts) := Group(s).value;
      Parse(s, num, temp) ==
        if |ts| < 4 then [] else [ToArea(Numbers(ts, temp))] + Parse(s[close..], num - 1, Numbers(ts, temp))
  {
    hide Group;
  }

  /** Printed areas of at most 127 characters meet the code's demand on its scratch string. */
  lemma {:induction false} PrintedGroupsFit(items: seq<Item>, last: string)
    requires GapsOk(items, last) && forall i :: i in items ==> |PrintArea(i.area)| <= 127
    ensures GroupsFit(PrintItems(items, last))
    decreases |items|
  {
    hide PrintBody;
    if items != [] {
      var g, b, rest := items[0].gap, PrintBody(items[0].area), PrintItems(items[1..], last);
      assert items[0] in items;
      PrintedGroupsFit(items[1..], last);
      BodyPlain(items[0].area);
      OneMoreFits(g, b, rest);
    }
  }

  lemma OneMoreFits(gap: string, b: string, rest: string)
    requires '(' !in gap && '(' !in b && ')' !in b && |b| + 2 <= 127 && GroupsFit(rest)
    ensures GroupsFit(gap + ("(" + b + ")") + rest)
  {
    var s := gap + ("(" + b + ")") + rest;
    var k := |gap| + |b| + 2;
    assert s[k - 1] == ')' && s[k..] == rest;
    forall o, c | 0 <= o < c < |s| && s[o] == '(' && s[c] == ')' && ')' !in s[o..c]
      ensures c - o < 127
    {
      if o >= k {
        assert s[o] == rest[o - k] && s[c] == rest[c - k];
        assert s[o..c] == rest[o - k..c - k];
      }
    }
  }
}
