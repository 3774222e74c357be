/** The wildcard matcher of f_findfirst (pattern_match), for single-byte characters. A string is the sequence of
    its characters before the terminating zero. */
module Glob {
  type Char = x: int | 1 <= x < 0x100 witness 1
  type Text = seq<Char>

  const FIND_RECURS: nat := 4
  const QUESTION: Char := 0x3F
  const STAR: Char := 0x2A

  /** Table of upper-case letters for the characters from 0x80 on. */
  type Extended = t: seq<Char> | |t| == 0x80 witness seq(0x80, _ => 1)

  /** Characters are compared in upper case (get_achar). */
  function Upper(ext: Extended, c: Char): Char {
    if 0x61 <= c <= 0x7A then c - 0x20
    else if c >= 0x80 then ext[c - 0x80]
    else c
  }

  /** get_achar at position i: 0 at the end of the string. */
  function CharAt(ext: Extended, s: Text, i: nat): nat {
    if i < |s| then Upper(ext, s[i]) else 0
  }

  predicate IsWild(c: Char) {
    c == QUESTION || c == STAR
  }

  // ---- the glob language

  /** A name belongs to a pattern: ? stands for one character, * for any number. */
  ghost predicate Matches(ext: Extended, p: Text, n: Text)
    decreases |p|
  {
    if p == [] then n == []
    else if p[0] == STAR then exists j | 0 <= j <= |n| :: Matches(ext, p[1..], n[j..])
    else n != [] && (p[0] == QUESTION || Upper(ext, p[0]) == Upper(ext, n[0])) && Matches(ext, p[1..], n[1..])
  }

  /** Length of the wildcard term at the start of a pattern. */
  function TermLength(p: Text): (k: nat)
    ensures k <= |p| && (forall i | 0 <= i < k :: IsWild(p[i])) && (k < |p| ==> !IsWild(p[k]))
    ensures k > 0 <==> p != [] && IsWild(p[0])
  {
    if p != [] && IsWild(p[0]) then 1 + TermLength(p[1..]) else 0
  }

  /** The question marks of a term, and whether it has a star. */
  function Marks(w: Text): (k: nat)
    ensures k <= |w|
  {
    if w == [] then 0 else Marks(w[..|w| - 1]) + if w[|w| - 1] == QUESTION then 1 else 0
  }

  predicate HasStar(w: Text) {
    STAR in w
  }

  /** Number of wildcard terms of a pattern. */
  function Terms(p: Text): nat
    decreases |p|
  {
    if p == [] then 0
    else if TermLength(p) > 0 then 1 + Terms(p[TermLength(p)..])
    else Terms(p[1..])
  }

  /** No term has more than 255 question marks. */
  predicate ShortTerms(p: Text)
    decreases |p|
  {
    if p == [] then true
    else if TermLength(p) > 0 then Marks(p[..TermLength(p)]) <= 255 && ShortTerms(p[TermLength(p)..])
    else ShortTerms(p[1..])
  }

  // ---- what the code decides

  /** sk after one more character of a wildcard term: a count in the low byte, bit 8 for a star. */
  function Scan(sk: nat, c: Char): nat {
    if c == QUESTION then sk + 1 else if sk / 0x100 % 2 == 1 then sk else sk + 0x100
  }

  function TermCode(w: Text): nat {
    if w == [] then 0 else Scan(TermCode(w[..|w| - 1]), w[|w| - 1])
  }

  /** The pattern p is accepted for a name after skipping as skip says: skip % 0x100 characters, and more if
      a higher bit is set. */
  ghost predicate Accepts(ext: Extended, p: Text, n: Text, skip: nat, recur: nat)
    decreases |p|, 1
  {
    exists k | 0 <= k <= |n| :: Skips(skip, k) && Here(ext, p, n[k..], recur)
  }

  predicate Skips(skip: nat, k: int) {
    k == skip % 0x100 || (skip >= 0x100 && skip % 0x100 <= k)
  }

  /** The pattern is accepted for exactly this name, with at most recur wildcard terms. */
  ghost predicate Here(ext: Extended, p: Text, n: Text, recur: nat)
    decreases |p|, 0
  {
    if p == [] then n == []
    else if IsWild(p[0]) then
      recur > 0 && Accepts(ext, p[TermLength(p)..], n, TermCode(p[..TermLength(p)]), recur - 1)
    else n != [] && Upper(ext, p[0]) == Upper(ext, n[0]) && Here(ext, p[1..], n[1..], recur)
  }

  /** The first j characters of p are literals. */
  ghost predicate Literal(p: Text, j: nat) {
    j <= |p| && forall i | 0 <= i < j :: !IsWild(p[i])
  }

  /** Literals match one by one. */
  lemma {:induction false} HereLiteral(ext: Extended, p: Text, n: Text, recur: nat, j: nat)
    requires Literal(p, j)
    ensures Here(ext, p, n, recur) ==> j <= |n|
    ensures j <= |n| && (forall i | 0 <= i < j :: Upper(ext, p[i]) == Upper(ext, n[i])) ==>
      (Here(ext, p, n, recur) <==> Here(ext, p[j..], n[j..], recur))
    ensures (exists i | 0 <= i < j && i < |n| :: Upper(ext, p[i]) != Upper(ext, n[i])) ==> !Here(ext, p, n, recur)
    decreases j
  {
    if j == 0 {
      assert p[0..] == p && n[0..] == n;
    } else if n != [] {
      HereLiteral(ext, p[1..], n[1..], recur, j - 1);
      assert p[1..][j - 1..] == p[j..];
      assert j <= |n| ==> n[1..][j - 1..] == n[j..];
      assert forall i | 0 <= i < j - 1 :: p[1..][i] == p[i + 1];
      assert forall i | 0 <= i < |n| - 1 :: n[1..][i] == n[i + 1];
    }
  }

  /** Analyses the wildcard term at position j of the pattern: its code, and where it ends. */
  method ScanTerm(pat: Text, j: nat) returns (sk: nat, pp: nat)
    requires j < |pat| && IsWild(pat[j])
    ensures pp == j + TermLength(pat[j..]) <= |pat| && pp > j && sk == TermCode(pat[j..pp])
  {
    sk, pp := 0, j;
    while true
      invariant j <= pp < |pat| && IsWild(pat[pp]) && (forall i | j <= i < pp :: IsWild(pat[i]))
      invariant sk == TermCode(pat[j..pp])
      decreases |pat| - pp
    {
      assert pat[j..pp + 1][..pp - j] == pat[j..pp];
      sk := Scan(sk, pat[pp]);
      pp := pp + 1;
      if pp == |pat| || !IsWild(pat[pp]) { break; }
    }
    var s := pat[j..];
    assert forall i | 0 <= i < pp - j :: IsWild(s[i]) by {
      assert forall i | 0 <= i < pp - j :: s[i] == pat[j + i];
    }
    assert pp < |pat| ==> s[pp - j] == pat[pp];
  }

  /** Literals of the pattern that equal the first characters of the name. */
  ghost predicate Agree(ext: Extended, pat: Text, nam: Text, j: nat) {
    Literal(pat, j) && j <= |nam| && forall i | 0 <= i < j :: Upper(ext, pat[i]) == Upper(ext, nam[i])
  }

  lemma AgreeMeans(ext: Extended, pat: Text, nam: Text, recur: nat, j: nat)
    requires Agree(ext, pat, nam, j)
    ensures Here(ext, pat, nam, recur) <==> Here(ext, pat[j..], nam[j..], recur)
  {
    HereLiteral(ext, pat, nam, recur, j);
  }

  /** A name that is too short for the literals before a wildcard term or a mismatch is too short from any later start. */
  lemma TooShort(ext: Extended, pat: Text, nam: Text, recur: nat, j: nat, k: nat)
    requires Literal(pat, j) && k <= |nam| && |nam| - k < j
    ensures !Here(ext, pat, nam[k..], recur)
  {
    HereLiteral(ext, pat, nam[k..], recur, j);
  }

  /** Without terms left no name is accepted by a pattern that has one. */
  lemma NoTermsLeft(ext: Extended, pat: Text, nam: Text, j: nat)
    requires Literal(pat, j) && j < |pat| && IsWild(pat[j])
    ensures !Here(ext, pat, nam, 0)
  {
    HereLiteral(ext, pat, nam, 0, j);
    assert pat[j..][0] == pat[j];
  }

  /** One attempt of the matcher at a given start of the name: whether it succeeds, whether the whole search must be
      given up (too many terms), and the name character at which it failed. */
  method Branch(ext: Extended, pat: Text, nam: Text, recur: nat) returns (found: bool, stop: bool, nchr: nat)
    ensures found <==> Here(ext, pat, nam, recur)
    ensures stop ==> forall n :: !Here(ext, pat, n, recur)
    ensures !found && !stop && nchr == 0 ==> forall k | 0 < k <= |nam| :: !Here(ext, pat, nam[k..], recur)
    ensures nchr != 0 ==> nam != []
    decreases |pat|, 0
  {
    hide Here, Accepts, Upper, TermCode;
    var j := 0;
    while true
      invariant 0 <= j && Agree(ext, pat, nam, j)
      decreases |pat| - j
    {
      AgreeMeans(ext, pat, nam, recur, j);
      if j < |pat| && IsWild(pat[j]) {
        if recur == 0 {
          forall n ensures !Here(ext, pat, n, recur) {
            NoTermsLeft(ext, pat, n, j);
          }
          return false, true, 0;
        }
        var sk, pp := ScanTerm(pat, j);
        HereWild(ext, pat, nam, recur, j, pp, sk);
        found := PatternMatch(ext, pat[pp..], nam[j..], sk, recur - 1);
        if found { return true, false, 0; }
        nchr := if j < |nam| then nam[j] else 0;
        LaterStarts(ext, pat, nam, recur, j, nchr);
        return false, false, nchr;
      }
      var pchr := CharAt(ext, pat, j);
      nchr := CharAt(ext, nam, j);
      Ends(ext, pat, nam, recur, j);
      if pchr != nchr {
        LaterStarts(ext, pat, nam, recur, if j < |pat| then j + 1 else j, nchr);
        return false, false, nchr;
      }
      if pchr == 0 { return true, false, 0; }
      j := j + 1;
    }
  }

  /** The attempt goes on behind the term as pattern_match does. */
  lemma HereWild(ext: Extended, pat: Text, nam: Text, recur: nat, j: nat, pp: nat, sk: nat)
    requires j < |pat| && IsWild(pat[j]) && j <= |nam| && recur > 0
    requires pp == j + TermLength(pat[j..]) <= |pat| && sk == TermCode(pat[j..pp])
    ensures Here(ext, pat[j..], nam[j..], recur) <==> Accepts(ext, pat[pp..], nam[j..], sk, recur - 1)
  {
    hide Accepts, TermCode;
    var s := pat[j..];
    assert s[TermLength(s)..] == pat[pp..] && s[..TermLength(s)] == pat[j..pp] && s[0] == pat[j];
  }

  /** At the first position where the strings differ, or where they end. */
  lemma Ends(ext: Extended, pat: Text, nam: Text, recur: nat, j: nat)
    requires j <= |pat| && j <= |nam| && (j < |pat| ==> !IsWild(pat[j]))
    ensures CharAt(ext, pat, j) != CharAt(ext, nam, j) ==> !Here(ext, pat[j..], nam[j..], recur)
    ensures CharAt(ext, pat, j) == 0 == CharAt(ext, nam, j) ==> Here(ext, pat[j..], nam[j..], recur)
  {
    hide Accepts, Upper;
    assert j < |pat| ==> pat[j..][0] == pat[j];
    assert j < |nam| ==> nam[j..][0] == nam[j];
  }

  /** When the name ended, no later start can do. */
  lemma LaterStarts(ext: Extended, pat: Text, nam: Text, recur: nat, j: nat, nchr: nat)
    requires Literal(pat, j) && (nchr == 0 ==> |nam| <= j)
    ensures nchr == 0 ==> forall k | 0 < k <= |nam| :: !Here(ext, pat, nam[k..], recur)
  {
    if nchr == 0 {
      forall k | 0 < k <= |nam| ensures !Here(ext, pat, nam[k..], recur) {
        TooShort(ext, pat, nam, recur, j, k);
      }
    }
  }

  /** pattern_match. */
  method PatternMatch(ext: Extended, pat: Text, nam0: Text, skip0: nat, recur: nat) returns (r: bool)
    ensures r <==> Accepts(ext, pat, nam0, skip0, recur)
    decreases |pat|, 1
  {
    hide Here;
    var skip, nam := skip0, 0;
    while skip % 0x100 != 0
      invariant nam <= |nam0| && 0 <= skip && nam + skip % 0x100 == skip0 % 0x100 && skip / 0x100 == skip0 / 0x100
      decreases skip
    {
      if CharAt(ext, nam0, nam) == 0 { return false; }
      nam := nam + 1;
      skip := skip - 1;
    }
    if pat == [] && skip != 0 {
      EndAccepts(ext, nam0, skip0, recur);
      return true;
    }
    while true
      invariant skip0 % 0x100 <= nam <= |nam0| && (skip == 0 ==> nam == skip0 % 0x100)
      invariant forall k | 0 <= k < nam && Skips(skip0, k) :: !Here(ext, pat, nam0[k..], recur)
      decreases |nam0| - nam
    {
      var found, stop, nchr := Branch(ext, pat, nam0[nam..], recur);
      assert Skips(skip0, nam);
      if found { return true; }
      if stop { return false; }
      if skip == 0 { return false; }
      if nchr == 0 {
        Shifted(ext, pat, nam0, nam, recur);
        return false;
      }
      nam := nam + 1;
    }
  }

  lemma EndAccepts(ext: Extended, n: Text, skip: nat, recur: nat)
    requires skip >= 0x100 && skip % 0x100 <= |n|
    ensures Accepts(ext, [], n, skip, recur)
  {
    assert n[|n|..] == [] && Skips(skip, |n|);
  }

  lemma Shifted(ext: Extended, pat: Text, n: Text, a: nat, recur: nat)
    requires a <= |n| && forall k | 0 < k <= |n[a..]| :: !Here(ext, pat, n[a..][k..], recur)
    ensures forall k | a < k <= |n| :: !Here(ext, pat, n[k..], recur)
  {
    forall k | a < k <= |n| ensures !Here(ext, pat, n[k..], recur) {
      assert n[a..][k - a..] == n[k..];
    }
  }

  // ---- the code against the language

  ghost predicate AllWild(w: Text) {
    forall i | 0 <= i < |w| :: IsWild(w[i])
  }

  /** The code of a term: its marks in the low byte, exactly if there are at most 255 of them. */
  lemma {:induction false} TermCodeIs(w: Text)
    requires AllWild(w)
    ensures TermCode(w) % 0x100 == Marks(w) % 0x100
    ensures Marks(w) <= 255 ==> TermCode(w) == Marks(w) + if HasStar(w) then 0x100 else 0
  {
    if w != [] {
      var v, c := w[..|w| - 1], w[|w| - 1];
      TermCodeIs(v);
      ScanStep(TermCode(v), Marks(v), HasStar(v), c);
      StarLast(w);
      hide Scan, HasStar;
    }
  }

  lemma StarLast(w: Text)
    requires w != [] && AllWild(w)
    ensures HasStar(w) <==> HasStar(w[..|w| - 1]) || w[|w| - 1] != QUESTION
  {
    assert w == w[..|w| - 1] + [w[|w| - 1]];
  }

  lemma ScanStep(sk: nat, m: nat, star: bool, c: Char)
    requires sk % 0x100 == m % 0x100 && (m <= 255 ==> sk == m + if star then 0x100 else 0)
    ensures var m2, star2 := m + (if c == QUESTION then 1 else 0), star || c != QUESTION;
      Scan(sk, c) % 0x100 == m2 % 0x100 && (m2 <= 255 ==> Scan(sk, c) == m2 + if star2 then 0x100 else 0)
  {
  }

  lemma {:induction false} MarksFirst(w: Text)
    requires w != []
    ensures Marks(w) == Marks(w[1..]) + if w[0] == QUESTION then 1 else 0
  {
    if |w| > 1 {
      MarksFirst(w[..|w| - 1]);
      assert w[..|w| - 1][1..] == w[1..][..|w| - 2];
    } else {
      assert w[..0] == [] == w[1..];
    }
  }

  /** How many characters a term may stand for. */
  ghost predicate Spans(w: Text, k: int) {
    k == Marks(w) || (HasStar(w) && Marks(w) <= k)
  }

  /** A term of the language stands for as many characters as it has marks, or for more if it has a star. */
  lemma {:induction false} TermMatches(ext: Extended, w: Text, rest: Text, n: Text)
    requires AllWild(w)
    ensures Matches(ext, w + rest, n) <==> exists k | 0 <= k <= |n| :: Spans(w, k) && Matches(ext, rest, n[k..])
    decreases |w|
  {
    if w == [] {
      assert w + rest == rest && n[0..] == n && Spans(w, 0);
    } else {
      assert (w + rest)[1..] == w[1..] + rest;
      MarksFirst(w);
      assert w == [w[0]] + w[1..];
      if w[0] == QUESTION {
        if n != [] {
          TermMatches(ext, w[1..], rest, n[1..]);
          Shift(ext, w, rest, n);
        }
      } else {
        forall j | 0 <= j <= |n| {
          TermMatches(ext, w[1..], rest, n[j..]);
        }
        Absorb(ext, w, rest, n);
      }
    }
  }

  ghost predicate SpanMatch(ext: Extended, w: Text, rest: Text, n: Text) {
    exists k | 0 <= k <= |n| :: Spans(w, k) && Matches(ext, rest, n[k..])
  }

  lemma Shift(ext: Extended, w: Text, rest: Text, n: Text)
    requires w != [] && w[0] == QUESTION && n != [] && Marks(w) == Marks(w[1..]) + 1 && w == [w[0]] + w[1..]
    ensures SpanMatch(ext, w[1..], rest, n[1..]) <==> SpanMatch(ext, w, rest, n)
  {
    hide Matches, Marks;
    if SpanMatch(ext, w[1..], rest, n[1..]) {
      var k :| 0 <= k <= |n[1..]| && Spans(w[1..], k) && Matches(ext, rest, n[1..][k..]);
      assert n[1..][k..] == n[k + 1..] && Spans(w, k + 1);
    }
    if SpanMatch(ext, w, rest, n) {
      var k :| 0 <= k <= |n| && Spans(w, k) && Matches(ext, rest, n[k..]);
      assert n[1..][k - 1..] == n[k..] && Spans(w[1..], k - 1);
    }
  }

  lemma Absorb(ext: Extended, w: Text, rest: Text, n: Text)
    requires w != [] && w[0] == STAR && Marks(w) == Marks(w[1..])
    ensures (exists j | 0 <= j <= |n| :: SpanMatch(ext, w[1..], rest, n[j..])) <==> SpanMatch(ext, w, rest, n)
  {
    hide Matches, Marks;
    if j :| 0 <= j <= |n| && SpanMatch(ext, w[1..], rest, n[j..]) {
      var k :| 0 <= k <= |n[j..]| && Spans(w[1..], k) && Matches(ext, rest, n[j..][k..]);
      assert n[j..][k..] == n[j + k..] && Spans(w, j + k);
    }
    if SpanMatch(ext, w, rest, n) {
      var k :| 0 <= k <= |n| && Spans(w, k) && Matches(ext, rest, n[k..]);
      var j := k - Marks(w[1..]);
      assert n[j..][Marks(w[1..])..] == n[k..] && Spans(w[1..], Marks(w[1..]));
      assert SpanMatch(ext, w[1..], rest, n[j..]);
    }
  }

  /** With short terms the code accepts exactly the names of the language, if the pattern has no more terms than allowed,
      and no name at all if it has more. */
  lemma {:induction false} HereIs(ext: Extended, p: Text, n: Text, recur: nat)
    requires ShortTerms(p)
    ensures Here(ext, p, n, recur) <==> Matches(ext, p, n) && Terms(p) <= recur
    decreases |p|
  {
    if p == [] {
    } else if IsWild(p[0]) {
      var t := TermLength(p);
      if recur > 0 {
        forall k | 0 <= k <= |n|
          ensures Here(ext, p[t..], n[k..], recur - 1) <==> Matches(ext, p[t..], n[k..]) && Terms(p[t..]) <= recur - 1
        {
          HereIs(ext, p[t..], n[k..], recur - 1);
        }
      }
      HereWildIs(ext, p, n, recur, t);
    } else if n != [] {
      HereIs(ext, p[1..], n[1..], recur);
    }
  }

  /** The step over a wildcard term. */
  lemma HereWildIs(ext: Extended, p: Text, n: Text, recur: nat, t: nat)
    requires p != [] && IsWild(p[0]) && t == TermLength(p) && Marks(p[..t]) <= 255
    requires recur > 0 ==> forall k | 0 <= k <= |n| ::
      Here(ext, p[t..], n[k..], recur - 1) <==> Matches(ext, p[t..], n[k..]) && Terms(p[t..]) <= recur - 1
    ensures Here(ext, p, n, recur) <==> Matches(ext, p, n) && Terms(p) <= recur
  {
    var w, rest := p[..t], p[t..];
    assert Terms(p) == 1 + Terms(rest);
    assert Here(ext, p, n, recur) <==> recur > 0 && Accepts(ext, rest, n, TermCode(w), recur - 1);
    hide Here, Terms, Matches, Accepts;
    assert p == w + rest && AllWild(w);
    TermMatches(ext, w, rest, n);
    if recur > 0 {
      forall k | 0 <= k <= |n| ensures Skips(TermCode(w), k) <==> Spans(w, k) {
        SkipsSpans(w, k);
      }
      ByEach(ext, w, rest, n, recur - 1);
    }
  }

  lemma SkipsSpans(w: Text, k: nat)
    requires AllWild(w) && Marks(w) <= 255
    ensures Skips(TermCode(w), k) <==> Spans(w, k)
  {
    TermCodeIs(w);
  }

  lemma ByEach(ext: Extended, w: Text, rest: Text, n: Text, recur: nat)
    requires forall k | 0 <= k <= |n| :: Here(ext, rest, n[k..], recur) <==> Matches(ext, rest, n[k..]) && Terms(rest) <= recur
    requires forall k | 0 <= k <= |n| :: Skips(TermCode(w), k) <==> Spans(w, k)
    ensures Accepts(ext, rest, n, TermCode(w), recur) <==> SpanMatch(ext, w, rest, n) && Terms(rest) <= recur
  {
    hide Here, Matches, Skips, Spans, Terms, TermCode;
  }

  /** f_findfirst's matcher decides the glob language: exactly, for patterns of at most four terms; it accepts nothing
      for patterns with more. */
  lemma FindIs(ext: Extended, p: Text, n: Text)
    requires ShortTerms(p)
    ensures Accepts(ext, p, n, 0, FIND_RECURS) <==> Matches(ext, p, n) && Terms(p) <= FIND_RECURS
  {
    HereIs(ext, p, n, FIND_RECURS);
    assert n[0..] == n && Skips(0, 0);
  }

  // ---- the limit on question marks is needed

  /** Characters every name of the language has at least. */
  function MinLength(p: Text): nat
    decreases |p|
  {
    if p == [] then 0
    else if TermLength(p) > 0 then Marks(p[..TermLength(p)]) + MinLength(p[TermLength(p)..])
    else 1 + MinLength(p[1..])
  }

  lemma {:induction false} LongEnough(ext: Extended, p: Text, n: Text)
    requires Matches(ext, p, n)
    ensures |n| >= MinLength(p)
    decreases |p|
  {
    if p != [] {
      if IsWild(p[0]) {
        var t := TermLength(p);
        var w, rest := p[..t], p[t..];
        assert p == w + rest;
        TermMatches(ext, w, rest, n);
        var k :| 0 <= k <= |n| && Spans(w, k) && Matches(ext, rest, n[k..]);
        LongEnough(ext, rest, n[k..]);
      } else {
        LongEnough(ext, p[1..], n[1..]);
      }
    }
  }

  /** A name the code accepts: the marks of a term count modulo 256. */
  function Shortest(p: Text): (n: Text)
    decreases |p|
  {
    if p == [] then []
    else if TermLength(p) > 0 then seq(TermCode(p[..TermLength(p)]) % 0x100, _ => 1) + Shortest(p[TermLength(p)..])
    else [p[0]] + Shortest(p[1..])
  }

  lemma {:induction false} ShortestAccepted(ext: Extended, p: Text, recur: nat)
    requires Terms(p) <= recur
    ensures Here(ext, p, Shortest(p), recur)
    decreases |p|
  {
    if p != [] {
      var t := TermLength(p);
      if IsWild(p[0]) {
        ShortestAccepted(ext, p[t..], recur - 1);
        SkipAccepts(ext, p[t..], Shortest(p[t..]), TermCode(p[..t]), recur - 1);
      } else {
        ShortestAccepted(ext, p[1..], recur);
        assert Shortest(p)[1..] == Shortest(p[1..]);
      }
    }
  }

  lemma SkipAccepts(ext: Extended, rest: Text, n: Text, skip: nat, recur: nat)
    requires Here(ext, rest, n, recur)
    ensures Accepts(ext, rest, seq(skip % 0x100, _ => 1) + n, skip, recur)
  {
    hide Here;
    var k := skip % 0x100;
    assert (seq(k, _ => 1) + n)[k..] == n && Skips(skip, k);
  }

  /** What the first term of a pattern adds to the lengths. */
  lemma FirstTerm(p: Text, t: nat)
    requires p != [] && t == TermLength(p) > 0
    ensures |Shortest(p)| == Marks(p[..t]) % 0x100 + |Shortest(p[t..])|
    ensures MinLength(p) == Marks(p[..t]) + MinLength(p[t..])
    ensures ShortTerms(p) <==> Marks(p[..t]) <= 255 && ShortTerms(p[t..])
  {
    TermCodeIs(p[..t]);
    hide TermCode, Marks;
  }

  lemma {:induction false} ShortestLength(p: Text)
    ensures |Shortest(p)| <= MinLength(p) && (!ShortTerms(p) ==> |Shortest(p)| < MinLength(p))
    decreases |p|
  {
    if p != [] {
      var t := TermLength(p);
      if t > 0 {
        FirstTerm(p, t);
        hide Shortest, MinLength, ShortTerms, Marks, TermCode;
        ShortestLength(p[t..]);
      } else {
        ShortestLength(p[1..]);
      }
    }
  }

  /** The matcher is right about every name exactly when no term of the pattern has more than 255 question marks. */
  lemma RightIffShort(ext: Extended, p: Text)
    requires Terms(p) <= FIND_RECURS
    ensures ShortTerms(p) <==> forall n :: Accepts(ext, p, n, 0, FIND_RECURS) <==> Matches(ext, p, n)
  {
    if ShortTerms(p) {
      forall n ensures Accepts(ext, p, n, 0, FIND_RECURS) <==> Matches(ext, p, n) {
        FindIs(ext, p, n);
      }
    } else {
      var n := Shortest(p);
      ShortestAccepted(ext, p, FIND_RECURS);
      ShortestLength(p);
      assert n[0..] == n && Skips(0, 0);
      assert Accepts(ext, p, n, 0, FIND_RECURS);
      if Matches(ext, p, n) {
        LongEnough(ext, p, n);
        assert false;
      }
    }
  }

  /** f_findfirst and f_findnext: does a name belong to the pattern? */
  method Find(ext: Extended, pat: Text, nam: Text) returns (r: bool)
    ensures ShortTerms(pat) ==> (r <==> Matches(ext, pat, nam) && Terms(pat) <= FIND_RECURS)
  {
    r := PatternMatch(ext, pat, nam, 0, FIND_RECURS);
    if ShortTerms(pat) { FindIs(ext, pat, nam); }
  }
}
