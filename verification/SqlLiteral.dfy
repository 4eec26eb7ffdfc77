/** SQL export: literals, the VALUES list of an INSERT, and placeholder lists. */
module SqlLiteral {
  import opened Prelude
  import opened SqlNumber
  import D = Decimal

  /**
   A column's Go value. A float is what its shortest decimal form consists of; `Other` is any other value, of which
   only what fmt's `%v` prints is known.
   */
  datatype Value =
    | Nil
    | Str(s: string)
    | Bool(b: bool)
    | Whole(n: int)
    | Float(negative: bool, whole: nat, fraction: Digits, exponent: Option<int>)
    | Other(printed: string)

  /** Every quote doubled. */
  function Doubled(s: string): string {
    if s == "" then "" else (if s[0] == '\'' then "''" else [s[0]]) + Doubled(s[1..])
  }

  function PrintSigned(negative: bool, unsigned: string): string {
    if negative then "-" + unsigned else unsigned
  }

  function Format(v: Value): string {
    match v
    case Nil => "NULL"
    case Str(s) => "'" + Doubled(s) + "'"
    case Bool(b) => if b then "true" else "false"
    case Whole(n) => PrintSigned(n < 0, D.Print(if n < 0 then -n else n))
    case Float(negative, whole, fraction, exponent) => PrintSigned(negative, PrintUnsigned(whole, fraction, exponent))
    case Other(printed) => printed
  }

  function JoinComma(parts: seq<string>): string {
    if parts == [] then ""
    else if |parts| == 1 then parts[0]
    else parts[0] + ", " + JoinComma(parts[1..])
  }

  function FormatAll(vs: seq<Value>): (r: seq<string>)
    ensures |r| == |vs|
  {
    if vs == [] then [] else [Format(vs[0])] + FormatAll(vs[1..])
  }

  // ----- Reading standard SQL

  datatype Literal = Null | Text(s: string) | Flag(b: bool) | Num(x: Number)

  /** The text up to the closing quote, and what follows it; two quotes stand for one. */
  function ReadText(s: string): Option<(string, string)> {
    if s == "" then None
    else if s[0] != '\'' then
      match ReadText(s[1..])
      case None => None
      case Some((t, rest)) => Some(([s[0]] + t, rest))
    else if |s| > 1 && s[1] == '\'' then
      match ReadText(s[2..])
      case None => None
      case Some((t, rest)) => Some((['\''] + t, rest))
    else Some(("", s[1..]))
  }

  function ReadWord(s: string, word: string, l: Literal): Option<(Literal, string)> {
    if word <= s then Some((l, s[|word|..])) else None
  }

  function ReadSigned(s: string): Option<(Literal, string)> {
    match ReadNumber(Unsigned(s))
    case None => None
    case Some((x, rest)) => Some((Num(if Negative(s) then Negate(x) else x), rest))
  }

  /** One literal, with keywords in the spelling that the export uses. */
  function ReadLiteral(s: string): Option<(Literal, string)> {
    if s == "" then None
    else if s[0] == '\'' then
      match ReadText(s[1..])
      case None => None
      case Some((t, rest)) => Some((Text(t), rest))
    else if s[0] == 'N' then ReadWord(s, "NULL", Null)
    else if s[0] == 't' then ReadWord(s, "true", Flag(true))
    else if s[0] == 'f' then ReadWord(s, "false", Flag(false))
    else ReadSigned(s)
  }

  /** Literals separated by a comma and a space, and what follows the last one. */
  function ReadList(s: string): Option<(seq<Literal>, string)>
    decreases |s|
  {
    match ReadLiteral(s)
    case None => None
    case Some((l, rest)) =>
      if |rest| >= |s| || !(", " <= rest) then Some(([l], rest))
      else
        match ReadList(rest[2..])
        case None => None
        case Some((ls, end)) => Some(([l] + ls, end))
  }

  // ----- What is a literal by itself is one wherever it can end

  lemma {:induction false} TextExtends(s: string, t: string, rest: string)
    requires ReadText(s) == Some((t, "")) && Ends(rest)
    ensures ReadText(s + rest) == Some((t, rest))
    decreases |s|
  {
    var whole := s + rest;
    assert whole[0] == s[0];
    if s[0] != '\'' {
      TextExtends(s[1..], t[1..], rest);
      assert whole[1..] == s[1..] + rest;
    } else if |s| > 1 && s[1] == '\'' {
      TextExtends(s[2..], t[1..], rest);
      assert whole[2..] == s[2..] + rest;
    } else {
      assert whole[1..] == rest;
    }
  }

  lemma WordRoundTrip(word: string, rest: string, l: Literal)
    ensures ReadWord(word + rest, word, l) == Some((l, rest))
  {
    assert (word + rest)[|word|..] == rest;
  }

  lemma WordExtends(s: string, word: string, l: Literal, rest: string)
    requires ReadWord(s, word, l) == Some((l, ""))
    ensures ReadWord(s + rest, word, l) == Some((l, rest))
  {
    assert s == word;
    WordRoundTrip(word, rest, l);
  }

  lemma SignedExtends(s: string, l: Literal, rest: string)
    requires ReadSigned(s) == Some((l, "")) && Ends(rest)
    ensures ReadSigned(s + rest) == Some((l, rest))
  {
    SignExtends(s, rest);
    NumberExtends(Unsigned(s), rest);
    assert "" + rest == rest;
  }

  lemma LiteralExtends(s: string, l: Literal, rest: string)
    requires ReadLiteral(s) == Some((l, "")) && Ends(rest)
    ensures ReadLiteral(s + rest) == Some((l, rest))
  {
    var whole := s + rest;
    assert whole[0] == s[0] && whole[1..] == s[1..] + rest;
    if s[0] == '\'' {
      TextExtends(s[1..], l.s, rest);
    } else if s[0] == 'N' {
      WordExtends(s, "NULL", Null, rest);
    } else if s[0] == 't' {
      WordExtends(s, "true", Flag(true), rest);
    } else if s[0] == 'f' {
      WordExtends(s, "false", Flag(false), rest);
    } else {
      SignedExtends(s, l, rest);
    }
  }

  // ----- Round trips

  lemma {:induction false} TextRoundTrip(s: string)
    ensures ReadText(Doubled(s) + "'") == Some((s, ""))
  {
    var whole := Doubled(s) + "'";
    if s != "" {
      var tail := Doubled(s[1..]) + "'";
      TextRoundTrip(s[1..]);
      if s[0] == '\'' {
        assert whole == ['\'', '\''] + tail;
        assert whole[2..] == tail;
      } else {
        assert whole == [s[0]] + tail;
        assert whole[1..] == tail;
      }
      assert s == [s[0]] + s[1..];
    } else {
      assert whole == "'";
      assert whole[1..] == "";
    }
  }

  lemma StrLiteral(s: string)
    ensures ReadLiteral(Format(Str(s))) == Some((Text(s), ""))
  {
    TextRoundTrip(s);
    var whole := "'" + Doubled(s) + "'";
    assert whole[1..] == Doubled(s) + "'";
  }

  lemma SignedReads(negative: bool, digits: string, x: Number)
    requires digits != "" && D.IsDigit(digits[0]) && ReadNumber(digits) == Some((x, ""))
    ensures ReadSigned(PrintSigned(negative, digits)) == Some((Num(if negative then Negate(x) else x), ""))
  {
    if negative {
      assert ("-" + digits)[1..] == digits;
    }
  }

  lemma NumbersAreSigned(s: string)
    requires s != "" && (D.IsDigit(s[0]) || s[0] == '-')
    ensures ReadLiteral(s) == ReadSigned(s)
  {
  }

  /** A number, with a sign in front or not, reads by itself. */
  lemma SignedLiteral(negative: bool, digits: string, x: Number)
    requires digits != "" && D.IsDigit(digits[0]) && ReadNumber(digits) == Some((x, ""))
    ensures ReadLiteral(PrintSigned(negative, digits)) == Some((Num(if negative then Negate(x) else x), ""))
  {
    SignedReads(negative, digits, x);
    NumbersAreSigned(PrintSigned(negative, digits));
  }

  /** The digits of a number without a sign. */
  predicate IsNumber(digits: string, x: Number) {
    digits != "" && D.IsDigit(digits[0]) && ReadNumber(digits) == Some((x, ""))
  }

  lemma FloatIsNumber(whole: nat, fraction: Digits, exponent: Option<int>)
    ensures IsNumber(PrintUnsigned(whole, fraction, exponent), Amount(whole, fraction, exponent))
  {
    ReadsPrinted(whole, fraction, exponent);
    PrintedStartsWithDigit(whole, fraction, exponent);
  }

  lemma WholeIsNumber(n: nat)
    ensures IsNumber(D.Print(n), Int(n))
  {
    FloatIsNumber(n, "", None);
    assert PrintUnsigned(n, "", None) == D.Print(n) by {
      assert FractionText("") + ExponentText(None) == "";
      assert D.Print(n) + "" == D.Print(n);
    }
  }

  lemma NumberLiteral(negative: bool, digits: string, x: Number)
    requires IsNumber(digits, x)
    ensures ReadLiteral(PrintSigned(negative, digits)) == Some((Num(if negative then Negate(x) else x), ""))
  {
    SignedLiteral(negative, digits, x);
  }

  lemma WholeLiteral(n: int)
    ensures ReadLiteral(Format(Whole(n))) == Some((Num(Int(n)), ""))
  {
    var m: nat := if n < 0 then -n else n;
    WholeIsNumber(m);
    NumberLiteral(n < 0, D.Print(m), Int(m));
  }

  lemma FloatLiteral(negative: bool, whole: nat, fraction: Digits, exponent: Option<int>)
    ensures var x := Amount(whole, fraction, exponent);
            ReadLiteral(Format(Float(negative, whole, fraction, exponent)))
            == Some((Num(if negative then Negate(x) else x), ""))
  {
    FloatIsNumber(whole, fraction, exponent);
    NumberLiteral(negative, PrintUnsigned(whole, fraction, exponent), Amount(whole, fraction, exponent));
  }

  lemma NilLiteral()
    ensures ReadLiteral("NULL") == Some((Null, ""))
  {
    assert "NULL" + "" == "NULL";
    WordRoundTrip("NULL", "", Null);
  }

  lemma TrueLiteral()
    ensures ReadLiteral("true") == Some((Flag(true), ""))
  {
    assert "true" + "" == "true";
    WordRoundTrip("true", "", Flag(true));
  }

  lemma FalseLiteral()
    ensures ReadLiteral("false") == Some((Flag(false), ""))
  {
    assert "false" + "" == "false";
    WordRoundTrip("false", "", Flag(false));
  }

  /** What the value means in SQL: itself, or what its printed text says if that is a literal. */
  function Meaning(v: Value): Option<Literal> {
    match v
    case Nil => Some(Null)
    case Str(s) => Some(Text(s))
    case Bool(b) => Some(Flag(b))
    case Whole(n) => Some(Num(Int(n)))
    case Float(negative, whole, fraction, exponent) =>
      var x := Amount(whole, fraction, exponent);
      Some(Num(if negative then Negate(x) else x))
    case Other(printed) =>
      (match ReadLiteral(printed)
       case None => None
       case Some((l, rest)) => if rest == "" then Some(l) else None)
  }

  lemma FormatReads(v: Value, l: Literal)
    requires Meaning(v) == Some(l)
    ensures ReadLiteral(Format(v)) == Some((l, ""))
  {
    match v
    case Nil => NilLiteral();
    case Str(s) => StrLiteral(s);
    case Bool(b) =>
      if b {
        TrueLiteral();
      } else {
        FalseLiteral();
      }
    case Whole(n) => WholeLiteral(n);
    case Float(negative, whole, fraction, exponent) => FloatLiteral(negative, whole, fraction, exponent);
    case Other(_) =>
  }

  ghost predicate ReadsAs(v: Value, l: Literal) {
    forall rest | Ends(rest) :: ReadLiteral(Format(v) + rest) == Some((l, rest))
  }

  lemma MeaningReads(v: Value, l: Literal, rest: string)
    requires Meaning(v) == Some(l) && Ends(rest)
    ensures ReadLiteral(Format(v) + rest) == Some((l, rest))
  {
    FormatReads(v, l);
    LiteralExtends(Format(v), l, rest);
  }

  lemma ReadsAsMeans(v: Value, l: Literal)
    requires ReadLiteral(Format(v)) == Some((l, ""))
    ensures Meaning(v) == Some(l)
  {
    if Meaning(v).Some? {
      FormatReads(v, Meaning(v).value);
    }
  }

  /**
   For every value: its literal reads back as `l`, whatever may follow in a list, if and only if `l` is what the value
   means. Nulls, texts, booleans, integers and floating-point numbers all mean themselves.
   */
  lemma LiteralRoundTrip(v: Value, l: Literal)
    ensures ReadsAs(v, l) <==> Meaning(v) == Some(l)
  {
    if Meaning(v) == Some(l) {
      forall rest | Ends(rest)
        ensures ReadLiteral(Format(v) + rest) == Some((l, rest))
      {
        MeaningReads(v, l, rest);
      }
    }
    if ReadsAs(v, l) {
      assert ReadLiteral(Format(v) + "") == Some((l, ""));
      assert Format(v) + "" == Format(v);
      ReadsAsMeans(v, l);
    }
  }

  /** A number followed by a dash, as a printed time begins, is no literal. */
  lemma TimeIsNoLiteral(digits: string, more: string)
    requires digits != "" && D.AllDigits(digits)
    ensures Meaning(Other(digits + ("-" + more))) == None
  {
    var s, rest := digits + ("-" + more), "-" + more;
    D.SpanOfDigits(digits, rest);
    assert D.IsDigit(digits[0]) && s[0] == digits[0];
    assert s[..|digits|] == digits && s[|digits|..] == rest;
    ReadInParts(s, |digits|, None, rest, None, rest);
  }

  /** Nor is a printed byte slice, which begins with a bracket. */
  lemma BytesAreNoLiteral(more: string)
    ensures Meaning(Other("[" + more)) == None
  {
    assert D.Span("[" + more) == 0;
  }

  // ----- Lists

  lemma ReadStep(s: string, l: Literal, rest: string, ls: seq<Literal>, end: string)
    requires ReadLiteral(s) == Some((l, rest)) && |rest| < |s| && ", " <= rest
    requires ReadList(rest[2..]) == Some((ls, end))
    ensures ReadList(s) == Some(([l] + ls, end))
  {
  }

  /** One more literal in front of a list. */
  lemma ReadMore(text: string, l: Literal, tail: string, ls: seq<Literal>, end: string)
    requires text != "" && ReadLiteral(text + (", " + tail)) == Some((l, ", " + tail))
    requires ReadList(tail) == Some((ls, end))
    ensures ReadList(text + (", " + tail)) == Some(([l] + ls, end))
  {
    assert (", " + tail)[2..] == tail;
    ReadStep(text + (", " + tail), l, ", " + tail, ls, end);
  }

  lemma ReadLast(s: string, l: Literal, rest: string)
    requires ReadLiteral(s) == Some((l, rest)) && !(", " <= rest)
    ensures ReadList(s) == Some(([l], rest))
  {
  }

  lemma Regroup(a: string, b: string, c: string, d: string)
    ensures (a + b + c) + d == a + (b + (c + d))
  {
  }

  lemma JoinCons(first: string, others: seq<string>)
    requires others != []
    ensures JoinComma([first] + others) == first + ", " + JoinComma(others)
  {
    assert ([first] + others)[1..] == others;
  }

  lemma JoinStep(vs: seq<Value>, end: string)
    requires |vs| > 1
    ensures JoinComma(FormatAll(vs)) + end == Format(vs[0]) + (", " + (JoinComma(FormatAll(vs[1..])) + end))
  {
    var first, others := Format(vs[0]), FormatAll(vs[1..]);
    assert FormatAll(vs) == [first] + others;
    JoinCons(first, others);
    Regroup(first, ", ", JoinComma(others), end);
  }

  /** The values mean these, one by one. */
  predicate Mean(vs: seq<Value>, ls: seq<Literal>) {
    |vs| == |ls| && forall i | 0 <= i < |vs| :: Meaning(vs[i]) == Some(ls[i])
  }

  /** The VALUES list reads back as what the row's values mean, in order, up to the closing parenthesis. */
  lemma {:induction false} ListRoundTrip(vs: seq<Value>, ls: seq<Literal>, end: string)
    requires vs != [] && Mean(vs, ls) && Ends(end) && !(", " <= end)
    ensures ReadList(JoinComma(FormatAll(vs)) + end) == Some((ls, end))
  {
    if |vs| == 1 {
      MeaningReads(vs[0], ls[0], end);
      assert FormatAll(vs) == [Format(vs[0])];
      ReadLast(Format(vs[0]) + end, ls[0], end);
      assert ls == [ls[0]];
    } else {
      var tail := JoinComma(FormatAll(vs[1..])) + end;
      JoinStep(vs, end);
      ListRoundTrip(vs[1..], ls[1..], end);
      MeaningReads(vs[0], ls[0], ", " + tail);
      FormatReads(vs[0], ls[0]);
      ReadMore(Format(vs[0]), ls[0], tail, ls[1..], end);
      assert ls == [ls[0]] + ls[1..];
    }
  }

  /** So rows that mean something different never share a VALUES list. */
  lemma ListInjective(a: seq<Value>, b: seq<Value>, k: seq<Literal>, l: seq<Literal>)
    requires a != [] && b != [] && Mean(a, k) && Mean(b, l) && JoinComma(FormatAll(a)) == JoinComma(FormatAll(b))
    ensures k == l
  {
    ListRoundTrip(a, k, ")");
    ListRoundTrip(b, l, ")");
  }

  // ----- The export loop

  /** The values of a row, in the order it is visited. */
  function Visited(row: map<string, Value>, order: seq<string>): (vs: seq<Value>)
    requires forall i | 0 <= i < |order| :: order[i] in row
    ensures |vs| == |order|
  {
    seq(|order|, i requires 0 <= i < |order| => row[order[i]])
  }

  /** Columns and literals in step: the n-th literal reads back as what the n-th column's value means. */
  method RowLists(row: map<string, Value>, order: seq<string>) returns (cols: string, vals: string)
    requires forall i | 0 <= i < |order| :: order[i] in row
    ensures cols == JoinComma(order) && vals == JoinComma(FormatAll(Visited(row, order)))
    ensures forall ls | order != [] && Mean(Visited(row, order), ls) :: ReadList(vals + ")") == Some((ls, ")"))
  {
    var names, literals: seq<string> := [], [];
    for i := 0 to |order|
      invariant names == order[..i]
      invariant literals == FormatAll(Visited(row, order[..i]))
    {
      names := names + [order[i]];
      literals := literals + [Format(row[order[i]])];
      assert Visited(row, order[..i + 1]) == Visited(row, order[..i]) + [row[order[i]]];
      FormatAllSnoc(Visited(row, order[..i]), row[order[i]]);
    }
    assert order[..|order|] == order;
    cols, vals := JoinComma(names), JoinComma(literals);
    forall ls | order != [] && Mean(Visited(row, order), ls)
      ensures ReadList(vals + ")") == Some((ls, ")"))
    {
      ListRoundTrip(Visited(row, order), ls, ")");
    }
  }

  lemma {:induction false} FormatAllSnoc(vs: seq<Value>, v: Value)
    ensures FormatAll(vs + [v]) == FormatAll(vs) + [Format(v)]
  {
    if vs != [] {
      FormatAllSnoc(vs[1..], v);
      assert (vs + [v])[1..] == vs[1..] + [v];
    }
  }

  // ----- Placeholders

  datatype Outcome = Returns(list: string) | Panics

  function Numbered(n: nat): (parts: seq<string>)
    ensures |parts| == n
  {
    seq(n, i requires 0 <= i < n => "$" + D.Print(i + 1))
  }

  function Copies(n: nat): (parts: seq<string>)
    ensures |parts| == n
  {
    seq(n, i => "?")
  }

  /** `strings.Repeat` */
  function Repeat(s: string, n: nat): string {
    if n == 0 then "" else s + Repeat(s, n - 1)
  }

  lemma {:induction false} RepeatIsJoin(n: nat)
    requires n > 0
    ensures Repeat("?, ", n - 1) + "?" == JoinComma(Copies(n))
  {
    if n > 1 {
      RepeatIsJoin(n - 1);
      assert Copies(n)[1..] == Copies(n - 1);
    }
  }

  /** One placeholder for each column; without columns, drivers other than PostgreSQL's panic on a negative count. */
  method MakePlaceholders(n: nat, postgres: bool) returns (r: Outcome)
    ensures postgres ==> r == Returns(JoinComma(Numbered(n)))
    ensures !postgres && n > 0 ==> r == Returns(JoinComma(Copies(n)))
    ensures r.Panics? <==> !postgres && n == 0
  {
    if postgres {
      var parts := new string[n](_ => "");
      for i := 0 to n
        invariant parts[..i] == Numbered(n)[..i]
      {
        parts[i] := "$" + D.Print(i + 1);
        assert Numbered(n)[..i + 1] == Numbered(n)[..i] + [Numbered(n)[i]];
      }
      assert parts[..] == parts[..n] && Numbered(n)[..n] == Numbered(n);
      return Returns(JoinComma(parts[..]));
    }
    if n == 0 {
      return Panics;
    }
    RepeatIsJoin(n);
    return Returns(Repeat("?, ", n - 1) + "?");
  }
}
