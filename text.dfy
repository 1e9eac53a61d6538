/** String primitives the analysis and the appendix generators are built from:
    decimal digits, Python's str.split/str.join/str.replace/str.strip on a
    single character, re.sub of a character-class run, and Python's ordering
    of strings. */
module Text {
  import opened Ordering

  // ---------------------------------------------------------------- digits

  predicate IsDigit(c: char) { '0' <= c <= '9' }

  predicate AllDigits(s: string) { forall k :: 0 <= k < |s| ==> IsDigit(s[k]) }

  function DigitChar(d: nat): (c: char)
    requires d < 10
    ensures IsDigit(c) && c as int - '0' as int == d
  {
    ('0' as int + d) as char
  }

  /** Decimal rendering of a natural number, as Python's str(n). */
  function NatToString(n: nat): (s: string)
    ensures s != [] && AllDigits(s)
  {
    if n < 10 then [DigitChar(n)] else NatToString(n / 10) + [DigitChar(n % 10)]
  }

  /** Decimal rendering of an integer, as Python's str(n) (a leading '-' when negative). */
  function IntToString(n: int): string
  {
    if n < 0 then "-" + NatToString(-n) else NatToString(n)
  }

  /** The value of a string of decimal digits, as Python's int(s) (leading zeros allowed). */
  function DigitsValue(s: string): nat
    requires AllDigits(s)
  {
    if s == [] then 0 else DigitsValue(s[..|s| - 1]) * 10 + (s[|s| - 1] as int - '0' as int)
  }

  lemma {:induction false} DigitsValueOfNatToString(n: nat)
    ensures DigitsValue(NatToString(n)) == n
  {
    if n >= 10 {
      var s := NatToString(n / 10);
      assert (s + [DigitChar(n % 10)])[..|s|] == s;
      DigitsValueOfNatToString(n / 10);
    }
  }

  /** The longest prefix of s made of decimal digits (what a greedy \d+ consumes). */
  function TakeDigits(s: string): (d: string)
    ensures AllDigits(d) && d <= s
    ensures |d| < |s| ==> !IsDigit(s[|d|])
  {
    if s != [] && IsDigit(s[0]) then [s[0]] + TakeDigits(s[1..]) else []
  }

  lemma {:induction false} TakeDigitsOf(d: string, rest: string)
    requires AllDigits(d)
    requires rest == [] || !IsDigit(rest[0])
    ensures TakeDigits(d + rest) == d
  {
    if d != [] {
      assert (d + rest)[1..] == d[1..] + rest;
      TakeDigitsOf(d[1..], rest);
    } else {
      assert d + rest == rest;
    }
  }

  // ---------------------------------------------------------- split / join

  /** Python's s.split(sep) for a one-character separator: never empty, and
      the pieces never contain the separator. */
  function Split(s: string, sep: char): (parts: seq<string>)
    ensures |parts| >= 1
    ensures forall k :: 0 <= k < |parts| ==> sep !in parts[k]
  {
    if s == [] then [[]]
    else
      var rest := Split(s[1..], sep);
      if s[0] == sep then [[]] + rest
      else [[s[0]] + rest[0]] + rest[1..]
  }

  /** Python's sep.join(parts). */
  function Join(parts: seq<string>, sep: char): string
  {
    if parts == [] then []
    else if |parts| == 1 then parts[0]
    else parts[0] + [sep] + Join(parts[1..], sep)
  }

  lemma {:induction false} JoinSplit(s: string, sep: char)
    ensures Join(Split(s, sep), sep) == s
  {
    if s != [] {
      var rest := Split(s[1..], sep);
      JoinSplit(s[1..], sep);
      if s[0] == sep {
        assert ([[]] + rest)[1..] == rest;
      } else {
        var parts := [[s[0]] + rest[0]] + rest[1..];
        assert parts[1..] == rest[1..];
        if |rest| > 1 {
          assert Join(rest, sep) == rest[0] + [sep] + Join(rest[1..], sep);
        }
      }
    }
  }

  lemma {:induction false} SplitPiece(p: string, sep: char)
    requires sep !in p
    ensures Split(p, sep) == [p]
  {
    if p != [] {
      SplitPiece(p[1..], sep);
      assert [p[0]] + p[1..] == p;
    }
  }

  lemma {:induction false} SplitCons(p: string, sep: char, t: string)
    requires sep !in p
    ensures Split(p + [sep] + t, sep) == [p] + Split(t, sep)
  {
    if p == [] {
      assert p + [sep] + t == [sep] + t;
      assert ([sep] + t)[1..] == t;
    } else {
      assert (p + [sep] + t)[1..] == p[1..] + [sep] + t;
      SplitCons(p[1..], sep, t);
      assert [p[0]] + p[1..] == p;
    }
  }

  /** Joining separator-free pieces and splitting again gives the pieces back. */
  lemma {:induction false} SplitJoin(parts: seq<string>, sep: char)
    requires |parts| >= 1
    requires forall k :: 0 <= k < |parts| ==> sep !in parts[k]
    ensures Split(Join(parts, sep), sep) == parts
  {
    if |parts| == 1 {
      SplitPiece(parts[0], sep);
    } else {
      SplitJoin(parts[1..], sep);
      SplitCons(parts[0], sep, Join(parts[1..], sep));
      assert [parts[0]] + parts[1..] == parts;
    }
  }

  // ---------------------------------------------------- per-character maps

  /** Replaces every character c of s by f(c), left to right. */
  function EscapeEach(s: string, f: char -> string): string
  {
    if s == [] then [] else f(s[0]) + EscapeEach(s[1..], f)
  }

  /** Python's s.replace(c, r) for a one-character pattern c. */
  function ReplaceChar(s: string, c: char, r: string): string
  {
    EscapeEach(s, x => if x == c then r else [x])
  }

  lemma {:induction false} EscapeEachAppend(a: string, b: string, f: char -> string)
    ensures EscapeEach(a + b, f) == EscapeEach(a, f) + EscapeEach(b, f)
  {
    if a != [] {
      assert (a + b)[1..] == a[1..] + b;
      EscapeEachAppend(a[1..], b, f);
    } else {
      assert a + b == b;
    }
  }

  /** A map that leaves every character of s alone leaves s alone. */
  lemma {:induction false} EscapeEachIdentity(s: string, f: char -> string)
    requires forall k :: 0 <= k < |s| ==> f(s[k]) == [s[k]]
    ensures EscapeEach(s, f) == s
  {
    if s != [] {
      EscapeEachIdentity(s[1..], f);
      assert [s[0]] + s[1..] == s;
    }
  }

  /** Two maps that agree on the characters of s escape s alike. */
  lemma {:induction false} EscapeEachAgree(s: string, f: char -> string, g: char -> string)
    requires forall k :: 0 <= k < |s| ==> f(s[k]) == g(s[k])
    ensures EscapeEach(s, f) == EscapeEach(s, g)
  {
    if s != [] {
      EscapeEachAgree(s[1..], f, g);
    }
  }

  /** A reader that takes each code of f back to its character, whatever
      follows it, reads every escaped text back to the original. */
  lemma {:induction false} EscapeEachReadBack(s: string, f: char -> string, read: string -> string)
    requires read([]) == []
    requires forall c: char, rest: string :: read(f(c) + rest) == [c] + read(rest)
    ensures read(EscapeEach(s, f)) == s
  {
    if s != [] {
      EscapeEachReadBack(s[1..], f, read);
      assert read(f(s[0]) + EscapeEach(s[1..], f)) == [s[0]] + read(EscapeEach(s[1..], f));
      assert [s[0]] + s[1..] == s;
    }
  }

  /** A chain of s.replace(c, r) calls, applied in the order given. */
  function ReplaceAll(s: string, chain: seq<(char, string)>): string
    decreases |chain|
  {
    if chain == [] then s else ReplaceAll(ReplaceChar(s, chain[0].0, chain[0].1), chain[1..])
  }

  /** Running a chain in two parts is running it whole. */
  lemma {:induction false} ReplaceAllSplit(s: string, a: seq<(char, string)>, b: seq<(char, string)>)
    ensures ReplaceAll(s, a + b) == ReplaceAll(ReplaceAll(s, a), b)
    decreases |a|
  {
    if a != [] {
      assert (a + b)[0] == a[0] && (a + b)[1..] == a[1..] + b;
      ReplaceAllSplit(ReplaceChar(s, a[0].0, a[0].1), a[1..], b);
    } else {
      assert a + b == b;
    }
  }

  /** A replacement whose pattern does not occur changes nothing. */
  lemma ReplaceAbsent(s: string, c: char, r: string)
    requires c !in s
    ensures ReplaceChar(s, c, r) == s
  {
    EscapeEachIdentity(s, x => if x == c then r else [x]);
  }

  /** A replacement on a one-character string. */
  lemma ReplaceSingle(x: char, c: char, r: string)
    ensures ReplaceChar([x], c, r) == if x == c then r else [x]
  {
    var f := y => if y == c then r else [y];
    assert [x][1..] == [];
    assert EscapeEach([x], f) == f(x) + EscapeEach([], f);
  }

  lemma ReplaceConcatChar(a: string, b: string, c: char, r: string)
    ensures ReplaceChar(a + b, c, r) == ReplaceChar(a, c, r) + ReplaceChar(b, c, r)
  {
    EscapeEachAppend(a, b, x => if x == c then r else [x]);
  }

  /** A chain of replacements distributes over concatenation. */
  lemma {:induction false} ReplaceAllConcat(a: string, b: string, chain: seq<(char, string)>)
    ensures ReplaceAll(a + b, chain) == ReplaceAll(a, chain) + ReplaceAll(b, chain)
    decreases |chain|
  {
    if chain != [] {
      var c, r := chain[0].0, chain[0].1;
      EscapeEachAppend(a, b, x => if x == c then r else [x]);
      ReplaceAllConcat(ReplaceChar(a, c, r), ReplaceChar(b, c, r), chain[1..]);
    }
  }

  /** A chain none of whose patterns occurs in s leaves s alone. */
  lemma {:induction false} ReplaceAllAbsent(s: string, chain: seq<(char, string)>)
    requires forall j :: 0 <= j < |chain| ==> chain[j].0 !in s
    ensures ReplaceAll(s, chain) == s
    decreases |chain|
  {
    if chain != [] {
      ReplaceAbsent(s, chain[0].0, chain[0].1);
      ReplaceAllAbsent(s, chain[1..]);
    }
  }

  /** A single character c goes through the chain unchanged up to the first
      step whose pattern is c, which replaces it by r; the later steps leave
      r alone when none of their patterns occurs in it. */
  lemma {:induction false} ReplaceAllSingle(c: char, chain: seq<(char, string)>, i: nat)
    requires i < |chain| && chain[i].0 == c
    requires forall j :: 0 <= j < i ==> chain[j].0 != c
    requires forall j :: i < j < |chain| ==> chain[j].0 !in chain[i].1
    ensures ReplaceAll([c], chain) == chain[i].1
    decreases i
  {
    ReplaceSingle(c, chain[0].0, chain[0].1);
    if i == 0 {
      ReplaceAllAbsent(chain[0].1, chain[1..]);
    } else {
      ReplaceAllSingle(c, chain[1..], i - 1);
    }
  }

  /** A single character that no step of the chain matches is left alone. */
  lemma ReplaceAllUntouched(c: char, chain: seq<(char, string)>)
    requires forall j :: 0 <= j < |chain| ==> chain[j].0 != c
    ensures ReplaceAll([c], chain) == [c]
  {
    ReplaceAllAbsent([c], chain);
  }

  /** A chain of replacements acts character by character. */
  lemma {:induction false} ReplaceAllPerChar(s: string, chain: seq<(char, string)>)
    ensures ReplaceAll(s, chain) == EscapeEach(s, x => ReplaceAll([x], chain))
  {
    if s != [] {
      assert s == [s[0]] + s[1..];
      ReplaceAllConcat([s[0]], s[1..], chain);
      ReplaceAllPerChar(s[1..], chain);
    } else {
      ReplaceAllAbsent(s, chain);
    }
  }

  // ------------------------------------------------------------- stripping

  /** s without its leading characters that satisfy p. */
  function DropWhile(s: string, p: char -> bool): (t: string)
    ensures |t| <= |s| && t == s[|s| - |t|..]
    ensures t == [] || !p(t[0])
    ensures forall k :: 0 <= k < |s| - |t| ==> p(s[k])
  {
    if s != [] && p(s[0]) then
      var t := DropWhile(s[1..], p);
      assert t == s[1..][|s| - 1 - |t|..] == s[|s| - |t|..];
      assert forall k :: 1 <= k < |s| ==> s[k] == s[1..][k - 1];
      t
    else s
  }

  /** s without its trailing characters that satisfy p. */
  function DropWhileEnd(s: string, p: char -> bool): (t: string)
    ensures |t| <= |s| && t == s[..|t|]
    ensures t == [] || !p(t[|t| - 1])
    ensures forall k :: |t| <= k < |s| ==> p(s[k])
  {
    if s != [] && p(s[|s| - 1]) then
      var t := DropWhileEnd(s[..|s| - 1], p);
      assert t == s[..|s| - 1][..|t|] == s[..|t|];
      assert forall k :: 0 <= k < |s| - 1 ==> s[k] == s[..|s| - 1][k];
      t
    else s
  }

  /** Python's s.strip(chars): both ends lose the characters satisfying p. */
  function Strip(s: string, p: char -> bool): (t: string)
    ensures t == [] || (!p(t[0]) && !p(t[|t| - 1]))
    ensures s == [] || (!p(s[0]) && !p(s[|s| - 1])) ==> t == s
  {
    DropWhileEnd(DropWhile(s, p), p)
  }

  /** Stripping adds no character. */
  lemma StripKeepsAbsent(s: string, p: char -> bool, c: char)
    requires c !in s
    ensures c !in Strip(s, p)
  {
    var d := DropWhile(s, p);
    var t := DropWhileEnd(d, p);
    forall k | 0 <= k < |t| ensures t[k] != c {
      assert t[k] == d[k] == s[|s| - |d| + k];
    }
  }

  // ------------------------------------------------------- re.sub of runs

  /** Python's re.sub("[^K]+", rep, s) where K is the class `keep`: every
      maximal run of characters outside the class becomes one rep. */
  function SubRuns(s: string, keep: char -> bool, rep: char): string
    decreases |s|
  {
    if s == [] then []
    else if keep(s[0]) then [s[0]] + SubRuns(s[1..], keep, rep)
    else [rep] + SubRuns(DropWhile(s, c => !keep(c)), keep, rep)
  }

  /** The characters of s that satisfy p, in order. */
  function Filter(s: string, p: char -> bool): string
  {
    if s == [] then [] else (if p(s[0]) then [s[0]] else []) + Filter(s[1..], p)
  }

  /** No two adjacent characters of s are both c. */
  predicate NoDoubled(s: string, c: char)
  {
    forall k :: 0 <= k < |s| - 1 ==> !(s[k] == c && s[k + 1] == c)
  }

  /** The run substitution yields only class characters and rep, is empty
      exactly when s is, and begins with rep exactly when s begins outside
      the class. */
  lemma {:induction false} SubRunsChars(s: string, keep: char -> bool, rep: char)
    ensures var r := SubRuns(s, keep, rep);
      && (forall k :: 0 <= k < |r| ==> keep(r[k]) || r[k] == rep)
      && (r == [] <==> s == [])
      && (r != [] ==> (r[0] == rep <==> !keep(s[0])) || keep(rep))
    decreases |s|
  {
    if s != [] {
      var t := if keep(s[0]) then s[1..] else DropWhile(s, c => !keep(c));
      SubRunsChars(t, keep, rep);
      var r := SubRuns(s, keep, rep);
      assert r[1..] == SubRuns(t, keep, rep);
    }
  }

  /** The run substitution never puts two rep characters side by side. */
  lemma {:induction false} SubRunsNoDoubled(s: string, keep: char -> bool, rep: char)
    requires !keep(rep)
    ensures NoDoubled(SubRuns(s, keep, rep), rep)
    decreases |s|
  {
    if s != [] {
      var t := if keep(s[0]) then s[1..] else DropWhile(s, c => !keep(c));
      SubRunsNoDoubled(t, keep, rep);
      SubRunsChars(t, keep, rep);
      var r := SubRuns(s, keep, rep);
      var rt := SubRuns(t, keep, rep);
      assert r[1..] == rt;
      assert |r| > 1 && r[0] == rep ==> rt[0] != rep;
    }
  }

  /** The run substitution keeps the class characters, in order. */
  lemma {:induction false} SubRunsFilter(s: string, keep: char -> bool, rep: char)
    requires !keep(rep)
    ensures Filter(SubRuns(s, keep, rep), keep) == Filter(s, keep)
    decreases |s|
  {
    if s != [] {
      var r := SubRuns(s, keep, rep);
      if keep(s[0]) {
        SubRunsFilter(s[1..], keep, rep);
        assert r[1..] == SubRuns(s[1..], keep, rep);
      } else {
        var t := DropWhile(s, c => !keep(c));
        SubRunsFilter(t, keep, rep);
        FilterSkipsRun(s, keep);
        assert r[1..] == SubRuns(t, keep, rep);
      }
    }
  }

  lemma {:induction false} FilterSkipsRun(s: string, keep: char -> bool)
    ensures Filter(DropWhile(s, c => !keep(c)), keep) == Filter(s, keep)
  {
    if s != [] && !keep(s[0]) {
      FilterSkipsRun(s[1..], keep);
    }
  }

  lemma {:induction false} FilterAppend(a: string, b: string, p: char -> bool)
    ensures Filter(a + b, p) == Filter(a, p) + Filter(b, p)
  {
    if a != [] {
      FilterAppend(a[1..], b, p);
      assert (a + b)[1..] == a[1..] + b;
    } else {
      assert a + b == b;
    }
  }

  lemma {:induction false} FilterNone(s: string, p: char -> bool)
    requires forall k :: 0 <= k < |s| ==> !p(s[k])
    ensures Filter(s, p) == []
  {
    if s != [] {
      FilterNone(s[1..], p);
    }
  }

  lemma FilterDropWhile(s: string, strip: char -> bool, keep: char -> bool)
    requires forall c :: strip(c) ==> !keep(c)
    ensures Filter(DropWhile(s, strip), keep) == Filter(s, keep)
  {
    var d := DropWhile(s, strip);
    var n := |s| - |d|;
    var head := s[..n];
    assert s == head + d;
    forall k | 0 <= k < |head| ensures !keep(head[k]) {
      assert head[k] == s[k] && strip(s[k]);
    }
    FilterAppend(head, d, keep);
    FilterNone(head, keep);
  }

  lemma FilterDropWhileEnd(s: string, strip: char -> bool, keep: char -> bool)
    requires forall c :: strip(c) ==> !keep(c)
    ensures Filter(DropWhileEnd(s, strip), keep) == Filter(s, keep)
  {
    var t := DropWhileEnd(s, strip);
    var tail := s[|t|..];
    assert s == t + tail;
    forall k | 0 <= k < |tail| ensures !keep(tail[k]) {
      assert tail[k] == s[|t| + k] && strip(s[|t| + k]);
    }
    FilterAppend(t, tail, keep);
    FilterNone(tail, keep);
  }

  /** Stripping characters outside the class keeps the class characters. */
  lemma StripFilter(s: string, strip: char -> bool, keep: char -> bool)
    requires forall c :: strip(c) ==> !keep(c)
    ensures Filter(Strip(s, strip), keep) == Filter(s, keep)
  {
    FilterDropWhile(s, strip, keep);
    FilterDropWhileEnd(DropWhile(s, strip), strip, keep);
  }

  /** Slicing keeps NoDoubled. */
  lemma NoDoubledSlice(s: string, c: char, i: nat, j: nat)
    requires i <= j <= |s| && NoDoubled(s, c)
    ensures NoDoubled(s[i..j], c)
  {
    var t := s[i..j];
    forall k | 0 <= k < |t| - 1
      ensures !(t[k] == c && t[k + 1] == c)
    {
      assert t[k] == s[i + k] && t[k + 1] == s[i + k + 1];
    }
  }

  /** A string already made of class characters and single rep characters is
      left unchanged by the run substitution. */
  lemma {:induction false} SubRunsFixed(s: string, keep: char -> bool, rep: char)
    requires !keep(rep)
    requires forall k :: 0 <= k < |s| ==> keep(s[k]) || s[k] == rep
    requires NoDoubled(s, rep)
    ensures SubRuns(s, keep, rep) == s
    decreases |s|
  {
    if s != [] {
      SubRunsFixed(s[1..], keep, rep);
      if !keep(s[0]) {
        assert s[1..] == [] || keep(s[1]);
        assert DropWhile(s, c => !keep(c)) == s[1..];
      }
      assert [s[0]] + s[1..] == s;
    }
  }

  // --------------------------------------------------------------- ordering

  /** Python's ordering of str: lexicographic by code point. */
  predicate LexLess(a: string, b: string)
  {
    if a == [] then b != []
    else if b == [] then false
    else a[0] < b[0] || (a[0] == b[0] && LexLess(a[1..], b[1..]))
  }

  lemma {:induction false} LexLessIrreflexive(a: string)
    ensures !LexLess(a, a)
  {
    if a != [] { LexLessIrreflexive(a[1..]); }
  }

  lemma {:induction false} LexLessTransitive(a: string, b: string, c: string)
    requires LexLess(a, b) && LexLess(b, c)
    ensures LexLess(a, c)
  {
    if a != [] && b != [] && c != [] && a[0] == b[0] && b[0] == c[0] {
      LexLessTransitive(a[1..], b[1..], c[1..]);
    }
  }

  lemma {:induction false} LexLessTotal(a: string, b: string)
    ensures a == b || LexLess(a, b) || LexLess(b, a)
  {
    if a != [] && b != [] && a[0] == b[0] {
      LexLessTotal(a[1..], b[1..]);
      if a[1..] == b[1..] {
        assert a == [a[0]] + a[1..] && b == [b[0]] + b[1..];
      }
    }
  }

  lemma LexLessIsStrictTotalOrder()
    ensures StrictTotalOrder((a: string, b: string) => LexLess(a, b))
  {
    forall a: string ensures !LexLess(a, a) { LexLessIrreflexive(a); }
    forall a: string, b: string, c: string | LexLess(a, b) && LexLess(b, c) ensures LexLess(a, c) {
      LexLessTransitive(a, b, c);
    }
    forall a: string, b: string ensures a == b || LexLess(a, b) || LexLess(b, a) {
      LexLessTotal(a, b);
    }
  }
}
