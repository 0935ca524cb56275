/** The text of an IPv6 socket address: `IPv6Address::insert` in `easy/net/Address.cc`, and a reader for
    the text forms 1 and 2 of section 2.2 of RFC 4291. Groups are in host order, as printed. */
module Ipv6Text {
  import opened Options
  import opened Digits

  predicate IsAddress(g: seq<nat>) {
    |g| == 8 && forall i :: 0 <= i < 8 ==> g[i] < 0x10000
  }

  // ----- what is printed -----

  function Fields(g: seq<nat>): (f: seq<string>)
    ensures |f| == |g|
    ensures forall i :: 0 <= i < |g| ==> f[i] == ToText(g[i], 16)
  {
    seq(|g|, i requires 0 <= i < |g| => ToText(g[i], 16))
  }

  function Join(f: seq<string>): string {
    if f == [] then "" else if |f| == 1 then f[0] else f[0] + ":" + Join(f[1..])
  }

  /** The first zero group at or after `i`, or the end. */
  function FirstZero(g: seq<nat>, i: nat): (s: nat)
    requires i <= |g|
    ensures i <= s <= |g|
    ensures forall j :: i <= j < s ==> g[j] != 0
    ensures s < |g| ==> g[s] == 0
    decreases |g| - i
  {
    if i == |g| || g[i] == 0 then i else FirstZero(g, i + 1)
  }

  /** The first nonzero group at or after `i`, or the end. */
  function FirstNonzero(g: seq<nat>, i: nat): (e: nat)
    requires i <= |g|
    ensures i <= e <= |g|
    ensures forall j :: i <= j < e ==> g[j] == 0
    ensures e < |g| ==> g[e] != 0
    decreases |g| - i
  {
    if i == |g| || g[i] != 0 then i else FirstNonzero(g, i + 1)
  }

  /** The first run of zeros, whatever its length, becomes `::`. */
  function Body(g: seq<nat>): string {
    var s := FirstZero(g, 0);
    if s == |g| then Join(Fields(g))
    else Join(Fields(g[..s])) + "::" + Join(Fields(g[FirstNonzero(g, s)..]))
  }

  function Text(g: seq<nat>, port: nat): string {
    "[" + Body(g) + "]:" + ToText(port, 10)
  }

  lemma {:induction false} JoinSnoc(f: seq<string>, x: string)
    ensures Join(f + [x]) == if f == [] then x else Join(f) + ":" + x
  {
    if |f| == 1 {
      assert (f + [x])[1..] == [x];
    } else if |f| > 1 {
      assert (f + [x])[1..] == f[1..] + [x];
      JoinSnoc(f[1..], x);
    }
  }

  /** What has been printed before group `i`. */
  ghost predicate Printed(g: seq<nat>, i: nat, used: bool, os: string)
    requires i <= |g|
  {
    var s := FirstZero(g, 0);
    if i <= s then !used && os == Join(Fields(g[..i]))
    else
      var e := FirstNonzero(g, s);
      if i <= e then !used && os == Join(Fields(g[..s]))
      else used && os == Join(Fields(g[..s])) + "::" + Join(Fields(g[e..i]))
  }

  /** `insert`: the flag `used_zeros` and the skipped groups give the text. */
  method Insert(g: seq<nat>, port: nat) returns (os: string)
    requires IsAddress(g)
    ensures os == Text(g, port)
  {
    var body := "";
    var used := false;
    for i := 0 to 8
      invariant Printed(g, i, used, body)
    {
      PrintedStep(g, i, used, body);
      if g[i] == 0 && !used {
        continue;
      }
      if i > 0 && g[i - 1] == 0 && !used {
        body := body + ":";
        used := true;
      }
      if i > 0 {
        body := body + ":";
      }
      body := body + ToText(g[i], 16);
    }
    PrintedAll(g, used, body);
    if !used && g[7] == 0 {
      body := body + "::";
    }
    os := "[" + body + "]:" + ToText(port, 10);
  }

  lemma PrintedStep(g: seq<nat>, i: nat, used: bool, body: string)
    requires i < |g| && Printed(g, i, used, body)
    ensures g[i] == 0 && !used ==> Printed(g, i + 1, used, body)
    ensures !(g[i] == 0 && !used) ==>
              var opens := i > 0 && g[i - 1] == 0 && !used;
              var body' := if opens then body + ":" else body;
              var body'' := if i > 0 then body' + ":" else body';
              Printed(g, i + 1, used || opens, body'' + ToText(g[i], 16))
  {
    hide Join, Fields, ToText, FirstZero, FirstNonzero;
    var s := FirstZero(g, 0);
    var e := FirstNonzero(g, s);
    var x := ToText(g[i], 16);
    if i < s {
      AppendField(g, 0, i);
    } else if i >= e && i > s {
      AppendField(g, e, i);
      Regroup(Join(Fields(g[..s])), Join(Fields(g[e..i])), x);
    }
  }

  lemma Regroup(l: string, m: string, x: string)
    ensures l + ":" + ":" + x == l + "::" + x
    ensures l + "::" + m + ":" + x == l + "::" + (m + ":" + x)
  {
    assert ":" + ":" == "::";
    assert l + ":" + ":" + x == l + (":" + ":") + x;
  }

  /** One more group at the end of a printed list. */
  lemma AppendField(g: seq<nat>, b: nat, i: nat)
    requires b <= i < |g|
    ensures var x := ToText(g[i], 16);
            Join(Fields(g[b..i + 1])) == if b == i then x else Join(Fields(g[b..i])) + ":" + x
    ensures b == 0 ==> g[0..i] == g[..i] && g[0..i + 1] == g[..i + 1]
    ensures i == 0 ==> Join(Fields(g[..0])) == ""
  {
    hide ToText;
    assert Fields(g[b..i + 1]) == Fields(g[b..i]) + [ToText(g[i], 16)];
    JoinSnoc(Fields(g[b..i]), ToText(g[i], 16));
  }

  lemma PrintedAll(g: seq<nat>, used: bool, body: string)
    requires |g| == 8 && Printed(g, 8, used, body)
    ensures (if !used && g[7] == 0 then body + "::" else body) == Body(g)
  {
    var s := FirstZero(g, 0);
    assert g[..8] == g;
    if s < 8 {
      var e := FirstNonzero(g, s);
      assert g[e..8] == g[e..];
      if e == 8 {
        assert g[e..] == [];
        assert Join(Fields(g[..s])) + "::" + Join(Fields(g[e..])) == Join(Fields(g[..s])) + "::";
      }
    }
  }

  // ----- a reader -----

  /** The first colon, or the end. */
  function FindColon(s: string): (i: nat)
    ensures i <= |s|
    ensures i < |s| ==> s[i] == ':'
  {
    if s == [] || s[0] == ':' then 0 else 1 + FindColon(s[1..])
  }

  /** The first `::`, or the end. */
  function FindDouble(s: string): (i: nat)
    ensures i <= |s|
    ensures i < |s| ==> i + 1 < |s| && s[i] == ':' && s[i + 1] == ':'
  {
    if |s| < 2 then |s| else if s[0] == ':' && s[1] == ':' then 0 else 1 + FindDouble(s[1..])
  }

  function FindClose(s: string): (i: nat)
    ensures i <= |s|
    ensures i < |s| ==> s[i] == ']'
  {
    if s == [] || s[0] == ']' then 0 else 1 + FindClose(s[1..])
  }

  function Split(s: string): seq<string>
    decreases |s|
  {
    var i := FindColon(s);
    if i == |s| then [s] else [s[..i]] + Split(s[i + 1..])
  }

  /** Each field is one group: one to four hexadecimal digits. */
  function ReadFields(f: seq<string>): Option<seq<nat>> {
    if f == [] then Some([])
    else if !(1 <= |f[0]| <= 4) then None
    else
      match FromText(f[0], 16)
      case None => None
      case Some(n) =>
        match ReadFields(f[1..])
        case None => None
        case Some(ns) => Some([n] + ns)
  }

  function ReadList(s: string): Option<seq<nat>> {
    if s == "" then Some([]) else ReadFields(Split(s))
  }

  function Zeros(n: nat): (z: seq<nat>)
    ensures |z| == n && forall i :: 0 <= i < n ==> z[i] == 0
  {
    seq(n, _ => 0)
  }

  /** Eight groups, or fewer around one `::` that stands for the missing ones, at least one. A second
      `::` leaves an empty field, which is not a group. */
  function ReadBody(s: string): Option<seq<nat>> {
    var p := FindDouble(s);
    if p == |s| then
      match ReadFields(Split(s))
      case Some(g) => if |g| == 8 then Some(g) else None
      case None => None
    else
      match (ReadList(s[..p]), ReadList(s[p + 2..]))
      case (Some(l), Some(r)) =>
        if |l| + |r| <= 7 then Some(l + Zeros(8 - |l| - |r|) + r) else None
      case (_, _) => None
  }

  /** `[address]:port`. */
  function Read(t: string): Option<(seq<nat>, nat)> {
    if t == "" || t[0] != '[' then None
    else
      var i := FindClose(t);
      if i + 1 >= |t| || t[i + 1] != ':' then None
      else
        match (ReadBody(t[1..i]), FromText(t[i + 2..], 10))
        case (Some(g), Some(port)) => Some((g, port))
        case (_, _) => None
  }

  // ----- reading back -----

  ghost predicate Plain(f: string) {
    |f| > 0 && forall i :: 0 <= i < |f| ==> f[i] != ':' && f[i] != ']'
  }

  ghost predicate AllPlain(f: seq<string>) {
    forall i :: 0 <= i < |f| ==> Plain(f[i])
  }

  lemma FieldsArePlain(g: seq<nat>)
    ensures AllPlain(Fields(g))
  {
  }

  lemma {:induction false} ColonAfter(f: string, t: string)
    requires forall i :: 0 <= i < |f| ==> f[i] != ':'
    ensures FindColon(f + t) == |f| + FindColon(t)
  {
    if f == "" {
      assert f + t == t;
    } else {
      assert (f + t)[1..] == f[1..] + t;
      ColonAfter(f[1..], t);
    }
  }

  lemma {:induction false} DoubleAfter(f: string, t: string)
    requires forall i :: 0 <= i < |f| ==> f[i] != ':'
    ensures FindDouble(f + t) == |f| + FindDouble(t)
  {
    if f == "" {
      assert f + t == t;
    } else {
      assert (f + t)[1..] == f[1..] + t;
      DoubleAfter(f[1..], t);
    }
  }

  lemma {:induction false} SplitJoin(f: seq<string>)
    requires AllPlain(f) && f != []
    ensures Split(Join(f)) == f
  {
    if |f| == 1 {
      ColonAfter(f[0], "");
      assert f[0] + "" == f[0];
    } else {
      assert Join(f) == f[0] + (":" + Join(f[1..]));
      SplitField(f[0], Join(f[1..]));
      SplitJoin(f[1..]);
    }
  }

  lemma SplitField(f: string, rest: string)
    requires forall i :: 0 <= i < |f| ==> f[i] != ':'
    ensures Split(f + (":" + rest)) == [f] + Split(rest)
  {
    var t := ":" + rest;
    ColonAfter(f, t);
    assert (f + t)[..|f|] == f && (f + t)[|f| + 1..] == rest;
  }

  /** A joined list starts with a field, not with a colon. */
  lemma JoinStarts(f: seq<string>)
    requires AllPlain(f) && f != []
    ensures |Join(f)| > 0 && Join(f)[0] == f[0][0] != ':'
  {
  }

  /** The `::` of the text is the one between the two lists; a list alone has none. */
  lemma {:induction false} DoubleInJoin(f: seq<string>, t: string)
    requires AllPlain(f) && (t == "" || FindDouble(t) == 0)
    ensures FindDouble(Join(f) + t) == |Join(f)|
  {
    if f == [] {
      assert Join(f) + t == t;
    } else if |f| == 1 {
      DoubleAfter(f[0], t);
    } else {
      var rest := Join(f[1..]) + t;
      JoinStarts(f[1..]);
      DoubleInJoin(f[1..], t);
      assert Join(f) + t == f[0] + (":" + rest);
      DoubleAfter(f[0], ":" + rest);
      assert (":" + rest)[1..] == rest;
    }
  }

  lemma {:induction false} ReadFieldsInverts(g: seq<nat>)
    requires forall i :: 0 <= i < |g| ==> g[i] < 0x10000
    ensures ReadFields(Fields(g)) == Some(g)
  {
    hide ToText, FromText;
    if g != [] {
      TextRoundTrip(g[0], 16);
      FourDigits(g[0]);
      assert Fields(g)[1..] == Fields(g[1..]);
      ReadFieldsInverts(g[1..]);
      assert [g[0]] + g[1..] == g;
    }
  }

  lemma ReadListInverts(g: seq<nat>)
    requires forall i :: 0 <= i < |g| ==> g[i] < 0x10000
    ensures ReadList(Join(Fields(g))) == Some(g)
  {
    FieldsArePlain(g);
    if g != [] {
      JoinStarts(Fields(g));
      SplitJoin(Fields(g));
    }
    ReadFieldsInverts(g);
  }

  lemma ReadBodyInverts(g: seq<nat>)
    requires IsAddress(g)
    ensures ReadBody(Body(g)) == Some(g)
  {
    hide Join, Fields, ReadFields, Split, FindDouble, ReadList, ToText;
    var s := FirstZero(g, 0);
    if s == |g| {
      NoDouble(g);
    } else {
      var e := FirstNonzero(g, s);
      AroundDouble(g[..s], g[e..]);
      assert g[..s] + Zeros(e - s) + g[e..] == g;
    }
  }

  lemma NoDouble(g: seq<nat>)
    requires g != [] && forall i :: 0 <= i < |g| ==> g[i] < 0x10000
    ensures var t := Join(Fields(g)); FindDouble(t) == |t| && ReadFields(Split(t)) == Some(g)
  {
    hide ReadFields, Split, ToText;
    FieldsArePlain(g);
    DoubleInJoin(Fields(g), "");
    assert Join(Fields(g)) + "" == Join(Fields(g));
    SplitJoin(Fields(g));
    ReadFieldsInverts(g);
  }

  lemma AroundDouble(a: seq<nat>, b: seq<nat>)
    requires forall i :: 0 <= i < |a| ==> a[i] < 0x10000
    requires forall i :: 0 <= i < |b| ==> b[i] < 0x10000
    ensures var t := Join(Fields(a)) + "::" + Join(Fields(b));
            var p := FindDouble(t);
            p + 2 <= |t| && ReadList(t[..p]) == Some(a) && ReadList(t[p + 2..]) == Some(b)
  {
    hide ReadList, ToText;
    var l, r := Join(Fields(a)), Join(Fields(b));
    FieldsArePlain(a);
    DoubleInJoin(Fields(a), "::" + r);
    assert l + "::" + r == l + ("::" + r);
    assert (l + "::" + r)[..|l|] == l && (l + "::" + r)[|l| + 2..] == r;
    ReadListInverts(a);
    ReadListInverts(b);
  }

  lemma {:induction false} CloseAfter(f: string, t: string)
    requires forall i :: 0 <= i < |f| ==> f[i] != ']'
    ensures FindClose(f + t) == |f| + FindClose(t)
  {
    if f == "" {
      assert f + t == t;
    } else {
      assert (f + t)[1..] == f[1..] + t;
      CloseAfter(f[1..], t);
    }
  }

  lemma {:induction false} JoinHasNoBracket(f: seq<string>)
    requires AllPlain(f)
    ensures forall i :: 0 <= i < |Join(f)| ==> Join(f)[i] != ']'
  {
    if |f| > 1 {
      JoinHasNoBracket(f[1..]);
    }
  }

  lemma BodyHasNoBracket(g: seq<nat>)
    ensures forall i :: 0 <= i < |Body(g)| ==> Body(g)[i] != ']'
  {
    var s := FirstZero(g, 0);
    FieldsArePlain(g);
    JoinHasNoBracket(Fields(g));
    if s < |g| {
      JoinHasNoBracket(Fields(g[..s]));
      JoinHasNoBracket(Fields(g[FirstNonzero(g, s)..]));
    }
  }

  /** Every address and port is read back from its text. */
  lemma ReadInvertsText(g: seq<nat>, port: nat)
    requires IsAddress(g)
    ensures Read(Text(g, port)) == Some((g, port))
  {
    hide Body, ReadBody, ToText, FromText;
    var t, p := Text(g, port), ToText(port, 10);
    var inner := "[" + Body(g);
    BodyHasNoBracket(g);
    assert t == inner + ("]:" + p);
    CloseAfter(inner, "]:" + p);
    assert t[1..|inner|] == Body(g) && t[|inner| + 2..] == p;
    ReadBodyInverts(g);
    TextRoundTrip(port, 10);
  }

  /** So no two sockets print alike. */
  lemma TextIsInjective(g: seq<nat>, port: nat, h: seq<nat>, port': nat)
    requires IsAddress(g) && IsAddress(h) && Text(g, port) == Text(h, port')
    ensures g == h && port == port'
  {
    ReadInvertsText(g, port);
    ReadInvertsText(h, port');
  }

  ghost predicate DoubleAt(s: string, i: int) {
    0 <= i && i + 1 < |s| && s[i] == ':' && s[i + 1] == ':'
  }

  lemma {:induction false} NoneBeforeFirst(s: string, i: nat)
    requires DoubleAt(s, i)
    ensures FindDouble(s) <= i
  {
    if i > 0 {
      NoneBeforeFirst(s[1..], i - 1);
    }
  }

  /** The text has at most one `::`, and it has one exactly when some group is zero. */
  lemma AtMostOneDouble(g: seq<nat>, i: nat, j: nat)
    requires IsAddress(g)
    ensures DoubleAt(Body(g), i) && DoubleAt(Body(g), j) ==> i == j
    ensures FindDouble(Body(g)) < |Body(g)| <==> 0 in g
  {
    var s := FirstZero(g, 0);
    if s == |g| {
      FieldsArePlain(g);
      DoubleInJoin(Fields(g), "");
      assert Join(Fields(g)) + "" == Join(Fields(g));
      if DoubleAt(Body(g), i) {
        NoneBeforeFirst(Body(g), i);
      }
    } else {
      OneDouble(g[..s], g[FirstNonzero(g, s)..], i);
      OneDouble(g[..s], g[FirstNonzero(g, s)..], j);
      assert g[s] in g;
    }
  }

  /** The `::` stands for the whole first run of zero groups, and every other group is printed. */
  lemma DoubleIsFirstRun(g: seq<nat>)
    requires IsAddress(g) && 0 in g
    ensures exists s: nat, e: nat ::
              && s < e <= 8
              && (forall i :: 0 <= i < s ==> g[i] != 0)
              && (forall i :: s <= i < e ==> g[i] == 0)
              && (e < 8 ==> g[e] != 0)
              && Body(g) == Join(Fields(g[..s])) + "::" + Join(Fields(g[e..]))
              && FindDouble(Body(g)) + 2 <= |Body(g)|
              && ReadList(Body(g)[..FindDouble(Body(g))]) == Some(g[..s])
              && ReadList(Body(g)[FindDouble(Body(g)) + 2..]) == Some(g[e..])
  {
    hide Join, Fields, ReadList, FindDouble;
    var s := FirstZero(g, 0);
    var e := FirstNonzero(g, s);
    AroundDouble(g[..s], g[e..]);
    assert s < e <= 8 && Body(g) == Join(Fields(g[..s])) + "::" + Join(Fields(g[e..]));
  }

  lemma OneDouble(a: seq<nat>, b: seq<nat>, i: nat)
    ensures var l := Join(Fields(a));
            var t := l + "::" + Join(Fields(b));
            FindDouble(t) == |l| < |t| && (DoubleAt(t, i) ==> i == |l|)
  {
    var l, r := Join(Fields(a)), Join(Fields(b));
    var t := l + "::" + r;
    FieldsArePlain(a);
    FieldsArePlain(b);
    DoubleInJoin(Fields(a), "::" + r);
    assert t == l + ("::" + r);
    if DoubleAt(t, i) {
      NoneBeforeFirst(t, i);
      if i > |l| {
        if b != [] {
          JoinStarts(Fields(b));
        }
        DoubleInJoin(Fields(b), "");
        assert r + "" == r;
        assert DoubleAt(r, i - |l| - 2);
        NoneBeforeFirst(r, i - |l| - 2);
      }
    }
  }
}
