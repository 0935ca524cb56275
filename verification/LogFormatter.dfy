/** The pattern compiler of `easy/base/LogFormatter.cc`: `%x` and `%x{argument}` are units, everything
    else stands for itself. */
module LogFormatter {

  /** A compiled token: a literal character, or a unit letter with its argument. */
  datatype Token = Literal(c: char) | Unit(letter: char, arg: string)

  const LETTERS := "mprctndFfLTbCN"

  /** What the formatter holds for a token: text, or a format unit. */
  datatype FormatUnit = Text(s: string) | Formatting(letter: char, arg: string)

  // ----- the grammar -----

  /** `find(c, i)`: the first `c` at or after `i`, or the end. */
  function Find(s: string, c: char, i: nat): (p: nat)
    requires i <= |s|
    ensures i <= p <= |s|
    ensures p < |s| ==> s[p] == c
    ensures forall j :: i <= j < p ==> s[j] != c
    decreases |s| - i
  {
    if i == |s| || s[i] == c then i else Find(s, c, i + 1)
  }

  /** The tokens of a pattern, read from the left; a lone `%` at the end is nothing. */
  function Tokens(s: string): seq<Token>
    decreases |s|
  {
    if s == "" then []
    else if s[0] != '%' then [Literal(s[0])] + Tokens(s[1..])
    else if |s| == 1 then []
    else
      var (t, n) := UnitAt(s);
      [t] + Tokens(s[n..])
  }

  /** The unit after a `%`, and how many characters it takes. */
  function UnitAt(s: string): (r: (Token, nat))
    requires |s| >= 2 && s[0] == '%'
    ensures 2 <= r.1 <= |s|
  {
    if |s| > 2 && s[2] == '{' && Find(s, '}', 2) < |s| then
      var p := Find(s, '}', 2);
      (Unit(s[1], s[3..p]), p + 1)
    else (Unit(s[1], ""), 2)
  }

  predicate Known(c: char) {
    c in LETTERS
  }

  lemma FourteenLetters()
    ensures forall c :: c in LETTERS <==> c in {'m', 'p', 'r', 'c', 't', 'n', 'd', 'F', 'f', 'L', 'T', 'b', 'C', 'N'}
  {
  }

  function Resolve(t: Token): FormatUnit {
    match t
    case Literal(c) => Text([c])
    case Unit(x, arg) => if Known(x) then Formatting(x, arg) else Text("<<error_format %" + [x] + ">>")
  }

  function ResolveAll(ts: seq<Token>): (u: seq<FormatUnit>)
    ensures |u| == |ts| && forall i :: 0 <= i < |ts| ==> u[i] == Resolve(ts[i])
  {
    seq(|ts|, i requires 0 <= i < |ts| => Resolve(ts[i]))
  }

  // ----- the compiler -----

  datatype Status = UNIT | STR

  /** The first loop of `compile`, over indices, with its `status` and the strings `A` and `B`, which
      are empty again once a token has been made of them. */
  method Scan(pattern: string) returns (units: seq<Token>)
    ensures units == Tokens(pattern)
  {
    hide UnitAt, Tokens;
    EmptyTokens();
    var n := |pattern|;
    var status := STR;
    units := [];
    var i := 0;
    while i < n
      invariant 0 <= i <= n
      invariant status == STR ==> units + Tokens(pattern[i..]) == Tokens(pattern)
      invariant status == UNIT ==> i > 0 && pattern[i - 1] == '%' && units + Tokens(pattern[i - 1..]) == Tokens(pattern)
      decreases n - i
    {
      match status {
        case STR =>
          if pattern[i] == '%' {
            status := UNIT;
          } else {
            LiteralFirst(pattern, i);
            units := units + [Literal(pattern[i])];
          }
        case UNIT =>
          ghost var start := i - 1;
          UnitShifts(pattern, start);
          var a, b := pattern[i], "";
          if i + 1 < n && pattern[i + 1] == '{' {
            var pos := Find(pattern, '}', i + 1);
            if pos < n {
              b := pattern[i + 2..pos];
              i := pos;
            }
          }
          UnitFirst(pattern, start, Unit(a, b), i + 1);
          units := units + [Unit(a, b)];
          status := STR;
      }
      i := i + 1;
    }
    assert pattern[n..] == "" && (status == UNIT ==> pattern[n - 1..] == "%");
    assert pattern[0..] == pattern;
  }

  lemma EmptyTokens()
    ensures Tokens("") == [] && Tokens("%") == []
  {
  }

  lemma LiteralFirst(pattern: string, i: nat)
    requires i < |pattern| && pattern[i] != '%'
    ensures Tokens(pattern[i..]) == [Literal(pattern[i])] + Tokens(pattern[i + 1..])
  {
    assert pattern[i..][1..] == pattern[i + 1..];
  }

  lemma UnitFirst(pattern: string, start: nat, t: Token, end: nat)
    requires start + 1 < |pattern| && pattern[start] == '%' && start <= end <= |pattern|
    requires UnitAt(pattern[start..]) == (t, end - start)
    ensures Tokens(pattern[start..]) == [t] + Tokens(pattern[end..])
  {
    hide UnitAt;
    TokensOfUnit(pattern[start..]);
    assert pattern[start..][end - start..] == pattern[end..];
  }

  lemma TokensOfUnit(s: string)
    requires |s| >= 2 && s[0] == '%'
    ensures Tokens(s) == [UnitAt(s).0] + Tokens(s[UnitAt(s).1..])
  {
    hide UnitAt;
  }

  /** The unit after the `%` at `start`, in indices of the whole pattern. */
  lemma UnitShifts(pattern: string, start: nat)
    requires start + 1 < |pattern| && pattern[start] == '%'
    ensures var i := start + 1;
            var p := if i + 1 < |pattern| && pattern[i + 1] == '{' then Find(pattern, '}', i + 1) else |pattern|;
            UnitAt(pattern[start..])
              == if p < |pattern| then (Unit(pattern[i], pattern[i + 2..p]), p + 1 - start)
                 else (Unit(pattern[i], ""), 2)
  {
    var s, i := pattern[start..], start + 1;
    if i + 1 < |pattern| && pattern[i + 1] == '{' {
      ShiftFind(pattern, start);
      var p := Find(pattern, '}', i + 1);
      if p < |pattern| {
        assert s[3..p - start] == pattern[i + 2..p];
      }
    }
  }

  lemma ShiftFind(pattern: string, start: nat)
    requires start + 2 < |pattern|
    ensures Find(pattern, '}', start + 2) == start + Find(pattern[start..], '}', 2)
  {
    var p, q := Find(pattern, '}', start + 2), Find(pattern[start..], '}', 2);
    assert p < |pattern| ==> pattern[start..][p - start] == '}';
  }

  /** `compile`: the units, and `error_`. */
  method Compile(pattern: string) returns (units: seq<FormatUnit>, error: bool)
    ensures units == ResolveAll(Tokens(pattern))
    ensures |units| == |Tokens(pattern)|
    ensures forall k :: 0 <= k < |units| ==>
              units[k] == match Tokens(pattern)[k]
                          case Literal(c) => Text([c])
                          case Unit(x, arg) =>
                            if x in {'m', 'p', 'r', 'c', 't', 'n', 'd', 'F', 'f', 'L', 'T', 'b', 'C', 'N'}
                            then Formatting(x, arg)
                            else Text("<<error_format %" + [x] + ">>")
    ensures error <==> exists t :: t in Tokens(pattern) && t.Unit? && t.letter !in LETTERS
  {
    FourteenLetters();
    var tokens := Scan(pattern);
    hide Tokens;
    units, error := [], false;
    for k := 0 to |tokens|
      invariant |units| == k && forall i :: 0 <= i < k ==> units[i] == Resolve(tokens[i])
      invariant error <==> exists t :: t in tokens[..k] && t.Unit? && t.letter !in LETTERS
    {
      var t := tokens[k];
      assert tokens[..k + 1] == tokens[..k] + [t];
      match t {
        case Literal(c) => units := units + [Text([c])];
        case Unit(x, arg) =>
          if x !in LETTERS {
            units := units + [Text("<<error_format %" + [x] + ">>")];
            error := true;
          } else {
            units := units + [Formatting(x, arg)];
          }
      }
    }
    assert tokens[..|tokens|] == tokens;
  }

  // ----- the printer -----

  function Print(t: Token): string {
    match t
    case Literal(c) => [c]
    case Unit(x, arg) => if arg == "" then ['%', x] else ['%', x, '{'] + arg + "}"
  }

  function PrintAll(ts: seq<Token>): string {
    if ts == [] then "" else Print(ts[0]) + PrintAll(ts[1..])
  }

  /** What a pattern must avoid to mean what it was printed from: a literal `%`; a `}` in an argument;
      and a unit without argument before text that looks like one. */
  predicate Unambiguous(ts: seq<Token>) {
    ts == [] ||
    (&& (match ts[0]
         case Literal(c) => c != '%'
         case Unit(_, arg) => if arg == "" then !LooksLikeArgument(PrintAll(ts[1..])) else '}' !in arg)
     && Unambiguous(ts[1..]))
  }

  predicate LooksLikeArgument(s: string) {
    s != "" && s[0] == '{' && '}' in s
  }

  lemma FindIn(s: string, c: char, i: nat)
    requires i <= |s|
    ensures Find(s, c, i) < |s| <==> c in s[i..]
  {
    var p := Find(s, c, i);
    if c in s[i..] {
      var j :| 0 <= j < |s[i..]| && s[i..][j] == c;
      assert s[i + j] == c;
    }
    assert p < |s| ==> s[i..][p - i] == c;
  }

  /** A printed unit, with any text behind it, is read as itself exactly when it is unambiguous. */
  lemma UnitReadsBack(x: char, arg: string, rest: string)
    ensures var s := Print(Unit(x, arg)) + rest;
            && |s| >= 2 && s[0] == '%'
            && (arg == "" && !LooksLikeArgument(rest) ==> UnitAt(s) == (Unit(x, arg), 2) && s[2..] == rest)
            && (arg == "" && LooksLikeArgument(rest) ==> UnitAt(s).1 > 2)
            && (arg != "" && '}' !in arg ==> UnitAt(s) == (Unit(x, arg), |arg| + 4) && s[|arg| + 4..] == rest)
            && (arg != "" && '}' in arg ==> UnitAt(s).0 != Unit(x, arg))
  {
    var s := Print(Unit(x, arg)) + rest;
    if arg == "" {
      assert s[2..] == rest;
      FindIn(s, '}', 2);
    } else {
      var p := Find(s, '}', 2);
      assert s[3..|arg| + 3] == arg && s[|arg| + 3] == '}';
      if '}' in arg {
        var j :| 0 <= j < |arg| && arg[j] == '}';
        assert s[3 + j] == '}';
      } else {
        assert forall j :: 3 <= j < |arg| + 3 ==> s[j] == arg[j - 3];
      }
    }
  }

  /** Printing what was read never gives more text than there was. */
  lemma {:induction false} TokensShrink(s: string)
    ensures |PrintAll(Tokens(s))| <= |s|
    decreases |s|
  {
    if s == "" || s == "%" {
    } else if s[0] != '%' {
      TokensShrink(s[1..]);
      PrintAllCons(Literal(s[0]), Tokens(s[1..]));
    } else if |s| > 1 {
      var (t, n) := UnitAt(s);
      TokensShrink(s[n..]);
      TokensOfUnit(s);
      PrintAllCons(t, Tokens(s[n..]));
      assert |Print(t)| <= n;
    }
  }

  lemma PrintAllCons(t: Token, ts: seq<Token>)
    ensures PrintAll([t] + ts) == Print(t) + PrintAll(ts)
  {
    assert ([t] + ts)[1..] == ts;
  }

  /** The compiler inverts the printer on a token list if and only if the list is unambiguous. */
  lemma {:induction false} CompilerInvertsPrinter(ts: seq<Token>)
    ensures Tokens(PrintAll(ts)) == ts <==> Unambiguous(ts)
  {
    if ts != [] {
      var rest := PrintAll(ts[1..]);
      CompilerInvertsPrinter(ts[1..]);
      match ts[0]
      case Literal(c) => LiteralReadsBack(c, ts[1..]);
      case Unit(x, arg) => UnitListReadsBack(x, arg, ts[1..]);
      assert ts == [ts[0]] + ts[1..];
    }
  }

  lemma LiteralReadsBack(c: char, ts: seq<Token>)
    ensures var s := [c] + PrintAll(ts);
            Tokens(s) == [Literal(c)] + ts <==> c != '%' && Tokens(PrintAll(ts)) == ts
  {
    hide UnitAt;
    var rest := PrintAll(ts);
    var s := [c] + rest;
    assert s[1..] == rest;
    if c != '%' {
      SameTail(Literal(c), Tokens(rest), ts);
    } else if |s| > 1 {
      TokensOfUnit(s);
      UnitIsUnit(s);
      assert ([UnitAt(s).0] + Tokens(s[UnitAt(s).1..]))[0] == UnitAt(s).0;
    }
  }

  lemma UnitIsUnit(s: string)
    requires |s| >= 2 && s[0] == '%'
    ensures UnitAt(s).0.Unit?
  {
  }

  lemma SameTail(t: Token, a: seq<Token>, b: seq<Token>)
    ensures [t] + a == [t] + b <==> a == b
  {
    assert ([t] + a)[1..] == a && ([t] + b)[1..] == b;
  }

  lemma UnitListReadsBack(x: char, arg: string, ts: seq<Token>)
    ensures var s := Print(Unit(x, arg)) + PrintAll(ts);
            Tokens(s) == [Unit(x, arg)] + ts
            <==> (if arg == "" then !LooksLikeArgument(PrintAll(ts)) else '}' !in arg) && Tokens(PrintAll(ts)) == ts
  {
    hide UnitAt, Print, LooksLikeArgument;
    var rest := PrintAll(ts);
    var s := Print(Unit(x, arg)) + rest;
    UnitReadsBack(x, arg, rest);
    TokensOfUnit(s);
    var (t, n) := UnitAt(s);
    assert ([t] + Tokens(s[n..]))[0] == t && ([Unit(x, arg)] + ts)[0] == Unit(x, arg);
    SameTail(t, Tokens(s[n..]), ts);
    if arg == "" && LooksLikeArgument(rest) {
      // the braces were swallowed, so what is left is too short to print as the other tokens
      TokensShrink(s[n..]);
      ShortUnit(x, rest);
    }
  }

  lemma ShortUnit(x: char, rest: string)
    ensures |Print(Unit(x, "")) + rest| == |rest| + 2
  {
  }

  // ----- coverage -----

  /** The texts of the tokens of a pattern, in order. */
  function Pieces(s: string): seq<string>
    decreases |s|
  {
    if s == "" || s == "%" then []
    else if s[0] != '%' then [[s[0]]] + Pieces(s[1..])
    else [s[..UnitAt(s).1]] + Pieces(s[UnitAt(s).1..])
  }

  function Concat(p: seq<string>): string {
    if p == [] then "" else p[0] + Concat(p[1..])
  }

  /** A text of a token: its printed form, or a unit with empty braces. */
  predicate TextOf(p: string, t: Token) {
    p == Print(t) || (t.Unit? && t.arg == "" && p == ['%', t.letter, '{', '}'])
  }

  predicate TextsOf(p: seq<string>, ts: seq<Token>) {
    |p| == |ts| && forall i :: 0 <= i < |ts| ==> TextOf(p[i], ts[i])
  }

  /** The tokens cover the whole pattern, without gap or overlap, except a lone `%` at its end. */
  lemma {:induction false} TokensCover(s: string)
    ensures TextsOf(Pieces(s), Tokens(s))
    ensures s == Concat(Pieces(s)) || s == Concat(Pieces(s)) + "%"
    decreases |s|
  {
    hide TextOf, TextsOf, UnitAt, Concat;
    if s == "" || s == "%" {
      NothingCovered();
    } else if s[0] != '%' {
      TokensCover(s[1..]);
      CoverLiteral(s[0]);
      assert s == [s[0]] + s[1..];
      CoverCons([s[0]], Pieces(s[1..]), Literal(s[0]), Tokens(s[1..]));
    } else {
      var (t, n) := UnitAt(s);
      TokensCover(s[n..]);
      TokensOfUnit(s);
      CoverUnit(s);
      assert s == s[..n] + s[n..];
      CoverCons(s[..n], Pieces(s[n..]), t, Tokens(s[n..]));
    }
  }

  lemma NothingCovered()
    ensures Concat([]) == "" && TextsOf([], [])
  {
  }

  lemma CoverLiteral(c: char)
    ensures TextOf([c], Literal(c))
  {
  }

  lemma CoverCons(a: string, p: seq<string>, t: Token, ts: seq<Token>)
    requires TextOf(a, t) && TextsOf(p, ts)
    ensures TextsOf([a] + p, [t] + ts)
    ensures Concat([a] + p) == a + Concat(p)
    ensures a + (Concat(p) + "%") == (a + Concat(p)) + "%"
  {
    TextsCons(a, p, t, ts);
    hide TextOf, TextsOf;
    assert ([a] + p)[1..] == p;
  }

  lemma TextsCons(a: string, p: seq<string>, t: Token, ts: seq<Token>)
    requires TextOf(a, t) && TextsOf(p, ts)
    ensures TextsOf([a] + p, [t] + ts)
  {
    hide TextOf;
  }

  lemma CoverUnit(s: string)
    requires |s| >= 2 && s[0] == '%'
    ensures TextOf(s[..UnitAt(s).1], UnitAt(s).0)
  {
    var (t, n) := UnitAt(s);
    if n > 2 {
      assert s[..n] == ['%', s[1], '{'] + s[3..n - 1] + "}";
      if t.arg == "" {
        assert s[..n] == ['%', s[1], '{', '}'];
      }
    }
  }
}
