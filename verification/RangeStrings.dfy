/** Styled strings of range sets: printing, parsing and the round trip. */
module RangeStrings {
  import opened Wrappers
  import opened RangeSets

  function Digit(d: nat): char
    requires d < 10
  {
    ('0' as int + d) as char
  }

  predicate IsDigit(c: char) {
    '0' <= c <= '9'
  }

  /** std::to_string of an unsigned number. */
  function Decimal(n: nat): (s: string)
    ensures s != [] && forall i :: 0 <= i < |s| ==> IsDigit(s[i])
  {
    if n < 10 then [Digit(n)] else Decimal(n / 10) + [Digit(n % 10)]
  }

  predicate AllDigits(s: string) {
    forall i :: 0 <= i < |s| ==> IsDigit(s[i])
  }

  /** The number a string of digits stands for. */
  function DecimalValue(s: string): nat
    requires AllDigits(s)
  {
    if s == [] then 0 else 10 * DecimalValue(s[..|s| - 1]) + (s[|s| - 1] as int - '0' as int)
  }

  /** Digits without a leading zero, unless there is only one. */
  predicate PlainNumber(s: string) {
    s != [] && AllDigits(s) && (s[0] == '0' ==> |s| == 1)
  }

  /** A number prints without a leading zero, and its digits stand for it. */
  lemma {:induction false} DecimalPlain(n: nat)
    ensures PlainNumber(Decimal(n)) && DecimalValue(Decimal(n)) == n && (n > 0 ==> Decimal(n)[0] != '0')
  {
    if n >= 10 {
      DecimalPlain(n / 10);
      assert Decimal(n)[..|Decimal(n)| - 1] == Decimal(n / 10);
    }
  }

  lemma {:induction false} PlainAtLeastTen(s: string)
    requires PlainNumber(s)
    ensures |s| >= 2 ==> DecimalValue(s) >= 10
    ensures s[0] != '0' ==> DecimalValue(s) >= 1
    decreases |s|
  {
    assert s[..0] == [];
    if |s| >= 2 {
      PlainAtLeastTen(s[..|s| - 1]);
    }
  }

  /** Each number has one plain spelling. */
  lemma {:induction false} PlainUnique(s: string, t: string)
    requires PlainNumber(s) && PlainNumber(t) && DecimalValue(s) == DecimalValue(t)
    ensures s == t
    decreases |s|
  {
    PlainAtLeastTen(s);
    PlainAtLeastTen(t);
    assert s == s[..|s| - 1] + [s[|s| - 1]] && t == t[..|t| - 1] + [t[|t| - 1]];
    if |s| == 1 || |t| == 1 {
      assert |s| == 1 ==> s[..0] == [];
      assert |t| == 1 ==> t[..0] == [];
    } else {
      PlainUnique(s[..|s| - 1], t[..|t| - 1]);
    }
  }

  /** The number a digit string stands for, unless it is not one or exceeds max. */
  function ParseFrom(s: string, acc: nat, max: nat): Option<nat> {
    if s == [] then Some(acc)
    else if !IsDigit(s[0]) then None
    else
      var v := 10 * acc + (s[0] as int - '0' as int);
      if v > max then None else ParseFrom(s[1..], v, max)
  }

  /** parseUnsigned: a leading plus sign is allowed, an empty number is not. */
  function ParseNumber(s: string, max: nat): Option<nat> {
    var digits := if s != [] && s[0] == '+' then s[1..] else s;
    if digits == [] then None else ParseFrom(digits, 0, max)
  }

  lemma {:induction false} ParseFromIff(s: string, max: nat)
    ensures ParseFrom(s, 0, max) == if AllDigits(s) && DecimalValue(s) <= max then Some(DecimalValue(s)) else None
    decreases |s|
  {
    if s != [] {
      var a, d := s[..|s| - 1], s[|s| - 1];
      assert s == a + [d];
      ParseFromIff(a, max);
      ParseConcat(a, [d], 0, max);
      assert AllDigits(s) <==> AllDigits(a) && IsDigit(d);
      assert [d][1..] == [];
    }
  }

  /** An optional plus sign and at least one digit, standing for v, which is at most max. */
  predicate Reads(s: string, v: nat, max: nat) {
    var t := if s != [] && s[0] == '+' then s[1..] else s;
    t != [] && AllDigits(t) && DecimalValue(t) == v && v <= max
  }

  lemma ParseNumberIff(s: string, v: nat, max: nat)
    ensures ParseNumber(s, max) == Some(v) <==> Reads(s, v, max)
  {
    ParseFromIff(if s != [] && s[0] == '+' then s[1..] else s, max);
    hide ParseFrom;
  }

  /** The loop of parse_integral, which tests for overflow before it multiplies. */
  method ParseUnsigned(s: string, max: nat) returns (r: Option<nat>)
    ensures r == ParseNumber(s, max)
    ensures forall v: nat :: r == Some(v) <==> Reads(s, v, max)
  {
    forall v: nat ensures ParseNumber(s, max) == Some(v) <==> Reads(s, v, max) {
      ParseNumberIff(s, v, max);
    }
    hide Reads;
    var rest := if s != [] && s[0] == '+' then s[1..] else s;
    if rest == [] {
      return None;
    }
    var num: nat := 0;
    while rest != []
      invariant ParseNumber(s, max) == ParseFrom(rest, num, max) && num <= max
      decreases |rest|
    {
      var c := rest[0];
      if !IsDigit(c) {
        return None;
      }
      var digit: nat := c as int - '0' as int;
      if num > max / 10 || (num == max / 10 && digit > max % 10) {
        return None;
      }
      num := num * 10 + digit;
      rest := rest[1..];
    }
    r := Some(num);
  }

  lemma {:induction false} ParseConcat(a: string, b: string, acc: nat, max: nat)
    ensures ParseFrom(a + b, acc, max) == if ParseFrom(a, acc, max).None? then None else ParseFrom(b, ParseFrom(a, acc, max).value, max)
    decreases |a|
  {
    if a == [] {
      assert a + b == b;
    } else {
      assert (a + b)[1..] == a[1..] + b;
      if IsDigit(a[0]) {
        ParseConcat(a[1..], b, 10 * acc + (a[0] as int - '0' as int), max);
      }
    }
  }

  /** Printing and parsing a number gives it back. */
  lemma {:induction false} ParseDecimal(n: nat, max: nat)
    requires n <= max
    ensures ParseFrom(Decimal(n), 0, max) == Some(n) && ParseNumber(Decimal(n), max) == Some(n)
  {
    if n >= 10 {
      ParseDecimal(n / 10, max);
      ParseConcat(Decimal(n / 10), [Digit(n % 10)], 0, max);
    }
  }

  /** to_string of an interval. */
  function IntervalString(iv: Interval): string {
    if iv.first == iv.last then Decimal(iv.first) else Decimal(iv.first) + "-" + Decimal(iv.last)
  }

  /** Strings joined by a separator. */
  function Join(parts: seq<string>, sep: char): string {
    if parts == [] then [] else if |parts| == 1 then parts[0] else parts[0] + [sep] + Join(parts[1..], sep)
  }

  function Strings(rs: seq<Interval>): seq<string> {
    if rs == [] then [] else [IntervalString(rs[0])] + Strings(rs[1..])
  }

  /** The styled string of a set. */
  function Styled(rs: seq<Interval>): string {
    if rs == [] then "empty" else Join(Strings(rs), ',')
  }

  function Suffixed(rs: seq<Interval>): string {
    if rs == [] then [] else IntervalString(rs[0]) + "," + Suffixed(rs[1..])
  }

  /** Every interval followed by a comma is the joined string with one comma too many. */
  lemma {:induction false} SuffixedJoin(rs: seq<Interval>)
    requires rs != []
    ensures Suffixed(rs) == Join(Strings(rs), ',') + ","
    decreases |rs|
  {
    if |rs| == 1 {
      assert rs[1..] == [] && Strings(rs)[1..] == [];
    } else {
      SuffixedJoin(rs[1..]);
      assert Strings(rs)[1..] == Strings(rs[1..]);
      JoinStep(IntervalString(rs[0]), Strings(rs[1..]));
    }
  }

  lemma JoinStep(a: string, rest: seq<string>)
    requires rest != []
    ensures Join([a] + rest, ',') == a + "," + Join(rest, ',')
  {
    assert ([a] + rest)[1..] == rest;
  }

  /** to_string of a set. */
  method ToString(rs: seq<Interval>) returns (s: string)
    ensures s == Styled(rs)
    ensures rs == [] ==> s == "empty"
    ensures Canonical(rs) && rs != [] ==> forall max: nat :: UpTo(rs, max) ==> StyledForm(rs, s, max)
  {
    if rs == [] {
      return "empty";
    }
    s := AppendAll(rs);
    hide StyledForm, UpTo, Canonical, Styled;
    if Canonical(rs) {
      forall max: nat | UpTo(rs, max) ensures StyledForm(rs, s, max) {
        StyledHolds(rs, max);
      }
    }
  }

  /** Every interval followed by a comma, and the last comma taken off again. */
  method AppendAll(rs: seq<Interval>) returns (s: string)
    requires rs != []
    ensures s == Styled(rs)
  {
    hide *;
    s := [];
    StartSuffix(rs);
    for i := 0 to |rs|
      invariant s + Suffixed(rs[i..]) == Suffixed(rs)
    {
      NextSuffix(rs, i, s);
      s := s + (IntervalString(rs[i]) + ",");
    }
    EndSuffix(rs, s);
    s := s[..|s| - 1];
  }

  lemma StartSuffix(rs: seq<Interval>)
    ensures [] + Suffixed(rs[0..]) == Suffixed(rs)
  {
    assert rs[0..] == rs;
  }

  lemma NextSuffix(rs: seq<Interval>, i: nat, s: string)
    requires i < |rs|
    ensures s + Suffixed(rs[i..]) == s + (IntervalString(rs[i]) + ",") + Suffixed(rs[i + 1..])
  {
    assert rs[i..][0] == rs[i] && rs[i..][1..] == rs[i + 1..];
    assert Suffixed(rs[i..]) == IntervalString(rs[i]) + "," + Suffixed(rs[i + 1..]);
    hide Suffixed, IntervalString;
  }

  lemma EndSuffix(rs: seq<Interval>, s: string)
    requires rs != [] && s + Suffixed(rs[|rs|..]) == Suffixed(rs)
    ensures s != [] && s[..|s| - 1] == Styled(rs)
  {
    assert rs[|rs|..] == [];
    SuffixedJoin(rs);
    hide Join, Strings;
    assert s == Join(Strings(rs), ',') + ",";
  }

  /** boost::split on one separator: always at least one piece. */
  function Split(s: string, sep: char): (r: seq<string>)
    ensures |r| >= 1
  {
    if s == [] then [[]]
    else
      var r := Split(s[1..], sep);
      if s[0] == sep then [[]] + r else [[s[0]] + r[0]] + r[1..]
  }

  lemma {:induction false} SplitPlain(a: string, sep: char)
    requires sep !in a
    ensures Split(a, sep) == [a]
    decreases |a|
  {
    if a != [] {
      SplitPlain(a[1..], sep);
      assert [a[0]] + a[1..] == a && Split(a[1..], sep)[1..] == [];
    }
  }

  lemma {:induction false} SplitFirst(a: string, b: string, sep: char)
    requires sep !in a
    ensures Split(a + [sep] + b, sep) == [a] + Split(b, sep)
    decreases |a|
  {
    var s := a + [sep] + b;
    if a == [] {
      assert s[1..] == b;
    } else {
      assert s[1..] == a[1..] + [sep] + b;
      SplitFirst(a[1..], b, sep);
      assert [a[0]] + a[1..] == a && Split(s[1..], sep)[1..] == Split(b, sep);
    }
  }

  /** Splitting undoes joining when no part holds the separator. */
  lemma {:induction false} SplitJoin(parts: seq<string>, sep: char)
    requires parts != [] && forall i :: 0 <= i < |parts| ==> sep !in parts[i]
    ensures Split(Join(parts, sep), sep) == parts
    decreases |parts|
  {
    if |parts| == 1 {
      SplitPlain(parts[0], sep);
    } else {
      SplitJoin(parts[1..], sep);
      SplitFirst(parts[0], Join(parts[1..], sep), sep);
    }
  }

  /** Joining undoes splitting, and no piece holds the separator. */
  lemma {:induction false} JoinSplit(s: string, sep: char)
    ensures Join(Split(s, sep), sep) == s && forall i :: 0 <= i < |Split(s, sep)| ==> sep !in Split(s, sep)[i]
    decreases |s|
  {
    if s != [] {
      var r := Split(s[1..], sep);
      JoinSplit(s[1..], sep);
      if s[0] == sep {
        assert ([[]] + r)[1..] == r;
      } else {
        assert ([[s[0]] + r[0]] + r[1..])[1..] == r[1..];
      }
    }
  }

  /** One token: a number, or two numbers with a dash. */
  function ParseToken(t: string, max: nat): Option<Interval> {
    var p := Split(t, '-');
    if |p| == 1 then
      match ParseNumber(p[0], max)
      case None => None
      case Some(v) => Some(Interval(v, v))
    else if |p| == 2 then
      match ParseNumber(p[0], max)
      case None => None
      case Some(v) => match ParseNumber(p[1], max) { case None => None case Some(w) => Some(Interval(v, w)) }
    else None
  }

  /** Two numbers around a dash at position k. */
  ghost predicate TwoNumbers(t: string, k: nat, iv: Interval, max: nat) {
    k < |t| && t[k] == '-' && Reads(t[..k], iv.first, max) && Reads(t[k + 1..], iv.last, max)
  }

  /** A token is a number, or two numbers with a dash between them. */
  lemma TokenIff(t: string, iv: Interval, max: nat)
    ensures ParseToken(t, max) == Some(iv) <==>
            (iv.first == iv.last && Reads(t, iv.first, max)) || exists k: nat :: TwoNumbers(t, k, iv, max)
  {
    hide ParseToken, Reads, TwoNumbers;
    if ParseToken(t, max) == Some(iv) {
      TokenReads(t, iv, max);
    }
    if iv.first == iv.last && Reads(t, iv.first, max) {
      OneNumberParses(t, iv.first, max);
    } else if k: nat :| TwoNumbers(t, k, iv, max) {
      TwoNumbersParse(t, k, iv, max);
    }
  }

  lemma TokenReads(t: string, iv: Interval, max: nat)
    requires ParseToken(t, max) == Some(iv)
    ensures (iv.first == iv.last && Reads(t, iv.first, max)) || exists k: nat :: TwoNumbers(t, k, iv, max)
  {
    hide Reads, ParseNumber;
    var p := Split(t, '-');
    JoinSplit(t, '-');
    ParseNumberIff(p[0], iv.first, max);
    if |p| == 2 {
      ParseNumberIff(p[1], iv.last, max);
      var k := |p[0]|;
      assert p[1..] == [p[1]];
      assert t == p[0] + ['-'] + p[1];
      assert t[..k] == p[0] && t[k + 1..] == p[1];
      assert TwoNumbers(t, k, iv, max);
    }
  }

  lemma OneNumberParses(t: string, v: nat, max: nat)
    requires Reads(t, v, max)
    ensures ParseToken(t, max) == Some(Interval(v, v))
  {
    NoDash(t, v, max);
    hide Reads, ParseNumber, Split;
    SplitPlain(t, '-');
    ParseNumberIff(t, v, max);
  }

  lemma TwoNumbersParse(t: string, k: nat, iv: Interval, max: nat)
    requires TwoNumbers(t, k, iv, max)
    ensures ParseToken(t, max) == Some(iv)
  {
    hide Reads, ParseNumber, Split;
    var a, b := t[..k], t[k + 1..];
    NoDash(a, iv.first, max);
    NoDash(b, iv.last, max);
    SplitPlain(b, '-');
    SplitFirst(a, b, '-');
    assert t == a + ['-'] + b;
    ParseNumberIff(a, iv.first, max);
    ParseNumberIff(b, iv.last, max);
  }

  lemma NoDash(s: string, v: nat, max: nat)
    requires Reads(s, v, max)
    ensures '-' !in s
  {}

  /** The tokens inserted one after the other, unless one does not parse. */
  function InsertTokens(rs: seq<Interval>, tokens: seq<string>, max: nat): Option<seq<Interval>>
    decreases |tokens|
  {
    if tokens == [] then Some(rs)
    else match ParseToken(tokens[0], max)
      case None => None
      case Some(iv) => InsertTokens(Insert(rs, iv), tokens[1..], max)
  }

  function ParseSet(s: string, max: nat): Option<seq<Interval>> {
    InsertTokens([], Split(s, ','), max)
  }

  /** from_string: the set is filled token by token and cleared when one fails. */
  method FromString(s: string, max: nat) returns (ok: bool, rs: seq<Interval>)
    ensures ok == ParseSet(s, max).Some? && rs == if ok then ParseSet(s, max).value else []
    ensures Canonical(rs)
    ensures ok <==> forall t :: t in Split(s, ',') ==> ParseToken(t, max).Some?
    ensures forall v: nat :: Contains(rs, v) <==> ok && Covered(Split(s, ','), max, v)
  {
    hide ParseToken, Insert;
    rs := [];
    var rest := Split(s, ',');
    ok := true;
    while ok && rest != []
      invariant Canonical(rs)
      invariant ok ==> InsertTokens(rs, rest, max) == ParseSet(s, max)
      invariant !ok ==> ParseSet(s, max) == None
      decreases ok, |rest|
    {
      var iv := ReadToken(rest[0], max);
      if iv.None? {
        ok := false;
      } else {
        InsertCanonical(rs, iv.value);
        rs := Insert(rs, iv.value);
        rest := rest[1..];
      }
    }
    if !ok {
      rs := [];
    }
    ParsedSet(s, max);
  }

  /** What a successful parse contains, and when parsing succeeds. */
  lemma ParsedSet(s: string, max: nat)
    ensures ParseSet(s, max).Some? <==> forall t :: t in Split(s, ',') ==> ParseToken(t, max).Some?
    ensures ParseSet(s, max).Some? ==> forall v: nat :: Contains(ParseSet(s, max).value, v) <==> Covered(Split(s, ','), max, v)
  {
    hide ParseToken, Insert, Covered, InsertTokens;
    TokensParse([], Split(s, ','), max);
    if ParseSet(s, max).Some? {
      forall v: nat ensures Contains(ParseSet(s, max).value, v) <==> Covered(Split(s, ','), max, v) {
        TokensCover([], Split(s, ','), max, v);
      }
    }
  }

  /** Some token covers v. */
  ghost predicate Covered(tokens: seq<string>, max: nat, v: nat) {
    exists t :: t in tokens && ParseToken(t, max).Some? && In(ParseToken(t, max).value, v)
  }

  method ReadToken(t: string, max: nat) returns (r: Option<Interval>)
    ensures r == ParseToken(t, max)
  {
    var intervals := Split(t, '-');
    if |intervals| == 1 {
      var front := ParseUnsigned(intervals[0], max);
      r := if front.None? then None else Some(Interval(front.value, front.value));
    } else if |intervals| == 2 {
      var front := ParseUnsigned(intervals[0], max);
      if front.None? {
        return None;
      }
      var back := ParseUnsigned(intervals[1], max);
      r := if back.None? then None else Some(Interval(front.value, back.value));
    } else {
      r := None;
    }
  }

  lemma {:induction false} TokensParse(rs: seq<Interval>, tokens: seq<string>, max: nat)
    ensures InsertTokens(rs, tokens, max).Some? <==> forall t :: t in tokens ==> ParseToken(t, max).Some?
    decreases |tokens|
  {
    if tokens != [] {
      assert tokens[0] in tokens;
      assert forall t :: t in tokens <==> t == tokens[0] || t in tokens[1..];
      if ParseToken(tokens[0], max).Some? {
        TokensParse(Insert(rs, ParseToken(tokens[0], max).value), tokens[1..], max);
      }
    }
  }

  lemma {:induction false} TokensCover(rs: seq<Interval>, tokens: seq<string>, max: nat, v: nat)
    requires Canonical(rs) && InsertTokens(rs, tokens, max).Some?
    ensures Contains(InsertTokens(rs, tokens, max).value, v) <==> Contains(rs, v) || Covered(tokens, max, v)
    decreases |tokens|
  {
    if tokens != [] {
      var iv := ParseToken(tokens[0], max).value;
      InsertCanonical(rs, iv);
      InsertContains(rs, iv, v);
      TokensCover(Insert(rs, iv), tokens[1..], max, v);
      assert forall t :: t in tokens <==> t == tokens[0] || t in tokens[1..];
    }
  }

  lemma DigitsOnly(s: string, c: char)
    requires (forall i :: 0 <= i < |s| ==> IsDigit(s[i])) && !IsDigit(c)
    ensures c !in s
  {}

  /** A printed interval holds no comma and parses back. */
  lemma TokenRoundTrip(iv: Interval, max: nat)
    requires iv.first <= iv.last <= max
    ensures ',' !in IntervalString(iv) && ParseToken(IntervalString(iv), max) == Some(iv)
  {
    hide Decimal, ParseNumber, Split;
    var a, b := Decimal(iv.first), Decimal(iv.last);
    DigitsOnly(a, ',');
    DigitsOnly(b, ',');
    DigitsOnly(a, '-');
    DigitsOnly(b, '-');
    ParseDecimal(iv.first, max);
    ParseDecimal(iv.last, max);
    SplitPlain(a, '-');
    SplitPlain(b, '-');
    SplitFirst(a, b, '-');
  }

  ghost predicate UpTo(rs: seq<Interval>, max: nat) {
    forall i :: 0 <= i < |rs| ==> rs[i].last <= max
  }

  /** How an interval is spelled: it parses back, holds a dash iff it has two ends, and its numbers are plain. */
  ghost predicate PieceForm(t: string, iv: Interval, max: nat) {
    && ParseToken(t, max) == Some(iv) && ('-' in t <==> iv.first < iv.last)
    && forall i :: 0 <= i < |Split(t, '-')| ==> PlainNumber(Split(t, '-')[i])
  }

  /** One piece between commas for each interval. */
  ghost predicate StyledForm(rs: seq<Interval>, s: string, max: nat) {
    |Split(s, ',')| == |rs| && forall i :: 0 <= i < |rs| ==> PieceForm(Split(s, ',')[i], rs[i], max)
  }

  lemma IntervalForm(iv: Interval, max: nat)
    requires iv.first <= iv.last <= max
    ensures PieceForm(IntervalString(iv), iv, max)
  {
    TokenRoundTrip(iv, max);
    hide ParseToken, Split, PlainNumber;
    var a, b := Decimal(iv.first), Decimal(iv.last);
    DecimalPlain(iv.first);
    DecimalPlain(iv.last);
    DigitsOnly(a, '-');
    DigitsOnly(b, '-');
    SplitPlain(a, '-');
    SplitPlain(b, '-');
    SplitFirst(a, b, '-');
  }

  lemma PlainReads(s: string, v: nat, max: nat)
    requires PlainNumber(s) && ParseNumber(s, max) == Some(v)
    ensures DecimalValue(s) == v
  {
    ParseNumberIff(s, v, max);
  }

  /** An interval has one spelling of that form. */
  lemma PieceUnique(t: string, u: string, iv: Interval, max: nat)
    requires iv.first <= iv.last && PieceForm(t, iv, max) && PieceForm(u, iv, max)
    ensures t == u
  {
    PieceParts(t, iv, max);
    PieceParts(u, iv, max);
    hide PieceForm, Split, PlainNumber, DecimalValue;
    var p, q := Split(t, '-'), Split(u, '-');
    PlainUnique(p[0], q[0]);
    if iv.first < iv.last {
      PlainUnique(p[1], q[1]);
    }
  }

  lemma PieceParts(t: string, iv: Interval, max: nat)
    requires iv.first <= iv.last && PieceForm(t, iv, max)
    ensures var p := Split(t, '-');
            && |p| == (if iv.first < iv.last then 2 else 1)
            && PlainNumber(p[0]) && DecimalValue(p[0]) == iv.first
            && (iv.first < iv.last ==> PlainNumber(p[1]) && DecimalValue(p[1]) == iv.last)
            && t == if iv.first < iv.last then p[0] + "-" + p[1] else p[0]
  {
    var p := Split(t, '-');
    JoinSplit(t, '-');
    if |p| == 2 {
      assert p[1..] == [p[1]];
      assert t == p[0] + ['-'] + p[1];
      assert t[|p[0]|] == '-';
    }
    hide Split, ParseNumber, PlainNumber;
    PlainReads(p[0], iv.first, max);
    if |p| == 2 {
      PlainReads(p[1], iv.last, max);
    }
  }

  lemma StyledHolds(rs: seq<Interval>, max: nat)
    requires Canonical(rs) && UpTo(rs, max) && rs != []
    ensures StyledForm(rs, Styled(rs), max)
  {
    StringsParts(rs, max);
    SplitJoin(Strings(rs), ',');
    forall i | 0 <= i < |rs| ensures PieceForm(Strings(rs)[i], rs[i], max) {
      StringsAt(rs, i);
      IntervalForm(rs[i], max);
    }
    hide PieceForm, Split, Join, Strings;
  }

  lemma {:induction false} StringsAt(rs: seq<Interval>, i: nat)
    requires i < |rs|
    ensures |Strings(rs)| == |rs| && Strings(rs)[i] == IntervalString(rs[i])
    decreases |rs|
  {
    if i > 0 {
      StringsAt(rs[1..], i - 1);
    } else if |rs| > 1 {
      StringsAt(rs[1..], 0);
    }
  }

  /** A non-empty set has one string of that form. */
  lemma StyledUnique(rs: seq<Interval>, s: string, s': string, max: nat)
    requires Canonical(rs) && StyledForm(rs, s, max) && StyledForm(rs, s', max)
    ensures s == s'
  {
    var p, q := Split(s, ','), Split(s', ',');
    forall i | 0 <= i < |rs| ensures p[i] == q[i] {
      PieceUnique(p[i], q[i], rs[i], max);
    }
    JoinSplit(s, ',');
    JoinSplit(s', ',');
    assert p == q;
  }

  lemma {:induction false} StringsParts(rs: seq<Interval>, max: nat)
    requires Canonical(rs) && UpTo(rs, max)
    ensures |Strings(rs)| == |rs| && forall i :: 0 <= i < |rs| ==> ',' !in Strings(rs)[i]
    decreases |rs|
  {
    if rs != [] {
      TailCanonical(rs);
      StringsParts(rs[1..], max);
      TokenRoundTrip(rs[0], max);
    }
  }

  lemma {:induction false} TokensRoundTrip(front: seq<Interval>, rs: seq<Interval>, max: nat)
    requires Canonical(front + rs) && UpTo(rs, max)
    ensures InsertTokens(front, Strings(rs), max) == Some(front + rs)
    decreases |rs|
  {
    if rs == [] {
      assert front + rs == front;
    } else {
      hide ParseToken, Insert;
      PrefixCanonical(front + rs, |front|);
      assert rs[0] == (front + rs)[|front|];
      TokenRoundTrip(rs[0], max);
      assert (front + rs)[..|front| + 1] == front + [rs[0]];
      InsertAppends(front, rs[0]);
      assert front + rs == (front + [rs[0]]) + rs[1..];
      TokensRoundTrip(front + [rs[0]], rs[1..], max);
      assert Strings(rs)[0] == IntervalString(rs[0]) && Strings(rs)[1..] == Strings(rs[1..]);
    }
  }

  lemma PrefixCanonical(rs: seq<Interval>, n: nat)
    requires Canonical(rs) && n < |rs|
    ensures Canonical(rs[..n + 1]) && rs[n].first <= rs[n].last
  {}

  /** Printing and parsing rebuilds every set except the empty one, whose string does not parse. */
  lemma RoundTrip(rs: seq<Interval>, max: nat)
    requires Canonical(rs) && UpTo(rs, max)
    ensures ParseSet(Styled(rs), max) == if rs == [] then None else Some(rs)
  {
    if rs == [] {
      EmptyDoesNotParse(max);
    } else {
      hide Split, InsertTokens, Join;
      StringsParts(rs, max);
      SplitJoin(Strings(rs), ',');
      assert [] + rs == rs;
      TokensRoundTrip([], rs, max);
    }
  }

  lemma EmptyDoesNotParse(max: nat)
    ensures ParseSet("empty", max) == None
  {
    SplitPlain("empty", ',');
    SplitPlain("empty", '-');
    hide Split;
    assert ParseNumber("empty", max) == None;
  }

  /** The values from lo to hi that are not in the set. */
  function Minus(lo: nat, hi: nat, rs: seq<Interval>): seq<Interval>
    decreases |rs|
  {
    if lo > hi then []
    else if rs == [] then [Interval(lo, hi)]
    else if rs[0].last < lo then Minus(lo, hi, rs[1..])
    else if hi < rs[0].first then [Interval(lo, hi)]
    else (if lo < rs[0].first then [Interval(lo, rs[0].first - 1)] else []) + Minus(rs[0].last + 1, hi, rs[1..])
  }

  lemma {:induction false} MinusContains(lo: nat, hi: nat, rs: seq<Interval>, v: nat)
    requires Canonical(rs)
    ensures Contains(Minus(lo, hi, rs), v) <==> lo <= v <= hi && !Contains(rs, v)
    decreases |rs|
  {
    hide Contains, Canonical;
    NotInEmpty(v);
    if lo <= hi {
      ContainsCons(Interval(lo, hi), [], v);
      assert [Interval(lo, hi)] + [] == [Interval(lo, hi)];
      if rs != [] {
        FirstInterval(rs, v);
        TailCanonical(rs);
        if rs[0].last < lo {
          MinusContains(lo, hi, rs[1..], v);
        } else if rs[0].first <= hi {
          var rest := Minus(rs[0].last + 1, hi, rs[1..]);
          MinusContains(rs[0].last + 1, hi, rs[1..], v);
          if lo < rs[0].first {
            ContainsCons(Interval(lo, rs[0].first - 1), rest, v);
          } else {
            assert [] + rest == rest;
          }
        }
      }
    }
  }

  lemma NotInEmpty(v: nat)
    ensures !Contains([], v)
  {}

  /** What the first interval says about v. */
  lemma FirstInterval(rs: seq<Interval>, v: nat)
    requires Canonical(rs) && rs != []
    ensures rs[0].first <= rs[0].last
    ensures v > rs[0].last ==> (Contains(rs[1..], v) <==> Contains(rs, v))
    ensures v <= rs[0].last ==> !Contains(rs[1..], v) && (Contains(rs, v) <==> rs[0].first <= v)
  {
    TailContains(rs, v);
    assert In(rs[0], v) ==> Contains(rs, v);
  }

  lemma ConsCanonical(iv: Interval, rest: seq<Interval>)
    requires iv.first <= iv.last && Canonical(rest) && (rest != [] ==> iv.last + 1 < rest[0].first)
    ensures Canonical([iv] + rest)
  {
    var rs := [iv] + rest;
    forall i | 0 <= i < |rs| - 1 ensures rs[i].last + 1 < rs[i + 1].first {
      assert i > 0 ==> rs[i] == rest[i - 1] && rs[i + 1] == rest[i];
    }
  }

  lemma {:induction false} MinusCanonical(lo: nat, hi: nat, rs: seq<Interval>)
    requires Canonical(rs)
    ensures Canonical(Minus(lo, hi, rs))
    ensures Minus(lo, hi, rs) != [] ==> lo <= Minus(lo, hi, rs)[0].first
    decreases |rs|
  {
    hide *;
    MinusForm(lo, hi, rs);
    if lo > hi {
      EmptyCanonical();
    } else if rs == [] || (lo <= rs[0].last && hi < rs[0].first) {
      WholeCanonical(lo, hi);
    } else {
      TailCanonical(rs);
      FirstInterval(rs, 0);
      var iv := rs[0];
      if iv.last < lo {
        MinusCanonical(lo, hi, rs[1..]);
      } else {
        var rest := Minus(iv.last + 1, hi, rs[1..]);
        MinusCanonical(iv.last + 1, hi, rs[1..]);
        if lo < iv.first {
          ConsCanonical(Interval(lo, iv.first - 1), rest);
        }
      }
    }
  }

  lemma MinusForm(lo: nat, hi: nat, rs: seq<Interval>)
    ensures Minus(lo, hi, rs)
            == if lo > hi then []
               else if rs == [] then [Interval(lo, hi)]
               else if rs[0].last < lo then Minus(lo, hi, rs[1..])
               else if hi < rs[0].first then [Interval(lo, hi)]
               else if lo < rs[0].first then [Interval(lo, rs[0].first - 1)] + Minus(rs[0].last + 1, hi, rs[1..])
               else Minus(rs[0].last + 1, hi, rs[1..])
  {
    if rs != [] {
      assert [] + Minus(rs[0].last + 1, hi, rs[1..]) == Minus(rs[0].last + 1, hi, rs[1..]);
    }
  }

  lemma EmptyCanonical()
    ensures Canonical([])
  {}

  lemma WholeCanonical(lo: nat, hi: nat)
    requires lo <= hi
    ensures Canonical([Interval(lo, hi)])
  {}

  lemma LastIsGreatest(rs: seq<Interval>, v: nat)
    requires Canonical(rs) && rs != []
    ensures Contains(rs, rs[|rs| - 1].last) && (Contains(rs, v) ==> v <= rs[|rs| - 1].last)
  {
    if Contains(rs, v) {
      var i :| 0 <= i < |rs| && rs[i].first <= v <= rs[i].last;
      if i < |rs| - 1 {
        Increasing(rs, i, |rs| - 1);
      }
    }
  }

  /** t - 1 in unsigned arithmetic. */
  function Pred(t: nat, max: nat): nat {
    if t == 0 then max else t - 1
  }

  /** prevMissing. */
  function PrevMissing(rs: seq<Interval>, t: nat, minVal: nat, max: nat): Option<nat> {
    if rs == [] || t == minVal then None
    else
      var tgt := Minus(minVal, Pred(t, max), rs);
      if tgt == [] then None else Some(tgt[|tgt| - 1].last)
  }

  /** v is the greatest value below t and not below minVal that is missing from the set. */
  ghost predicate GreatestMissing(rs: seq<Interval>, t: nat, minVal: nat, v: nat) {
    minVal <= v < t && !Contains(rs, v) && forall w: nat :: v < w < t ==> Contains(rs, w)
  }

  /** What the documentation promises of a result: the greatest missing value, or none when none is missing. */
  ghost predicate Documented(rs: seq<Interval>, t: nat, minVal: nat, r: Option<nat>) {
    && (r.Some? ==> GreatestMissing(rs, t, minVal, r.value))
    && (r.None? ==> forall v: nat :: minVal <= v < t ==> Contains(rs, v))
  }

  /** For a non-empty set and t above minVal the documentation holds. */
  lemma PrevMissingCorrect(rs: seq<Interval>, t: nat, minVal: nat, max: nat)
    requires Canonical(rs) && rs != [] && minVal < t
    ensures Documented(rs, t, minVal, PrevMissing(rs, t, minVal, max))
  {
    hide Minus, Contains, Canonical;
    var tgt := Minus(minVal, t - 1, rs);
    assert Pred(t, max) == t - 1;
    MinusCanonical(minVal, t - 1, rs);
    if tgt == [] {
      forall v: nat | minVal <= v < t ensures Contains(rs, v) {
        MinusContains(minVal, t - 1, rs, v);
        NotInEmpty(v);
      }
    } else {
      var last := tgt[|tgt| - 1].last;
      LastIsGreatest(tgt, last);
      MinusContains(minVal, t - 1, rs, last);
      forall w: nat | last < w < t ensures Contains(rs, w) {
        LastIsGreatest(tgt, w);
        MinusContains(minVal, t - 1, rs, w);
      }
      assert GreatestMissing(rs, t, minVal, last);
    }
  }

  /** Nothing is reported for the empty set, although every value is missing from it. */
  lemma PrevMissingOfEmpty(t: nat, minVal: nat, max: nat)
    requires minVal < t
    ensures PrevMissing([], t, minVal, max) == None && GreatestMissing([], t, minVal, t - 1)
    ensures !Documented([], t, minVal, None)
  {
    NotInEmpty(t - 1);
  }

  /** With t = 0 below minVal the predecessor wraps around: all of minVal..max is searched, above t. */
  lemma PrevMissingWraps(rs: seq<Interval>, minVal: nat, max: nat)
    requires Canonical(rs) && rs != [] && 0 < minVal <= max
    ensures Documented(rs, max + 1, minVal, PrevMissing(rs, 0, minVal, max))
  {
    PrevMissingCorrect(rs, max + 1, minVal, max);
  }

  /** Some value of minVal..max is missing. */
  ghost predicate SomeMissing(rs: seq<Interval>, minVal: nat, max: nat) {
    exists v: nat :: minVal <= v <= max && !Contains(rs, v)
  }

  /**
   Exactly when the result meets its documentation: unless the set is empty and a
   value below t is asked for, and unless t = 0 wraps around to a missing value.
   */
  lemma PrevMissingExact(rs: seq<Interval>, t: nat, minVal: nat, max: nat)
    requires Canonical(rs) && t <= max && minVal <= max
    ensures Documented(rs, t, minVal, PrevMissing(rs, t, minVal, max)) <==>
            !(rs == [] && minVal < t) && !(rs != [] && t == 0 < minVal && SomeMissing(rs, minVal, max))
  {
    if rs == [] {
      if minVal < t {
        PrevMissingOfEmpty(t, minVal, max);
      }
    } else if minVal < t {
      PrevMissingCorrect(rs, t, minVal, max);
    } else if t == 0 < minVal {
      PrevMissingWraps(rs, minVal, max);
    }
  }
}
