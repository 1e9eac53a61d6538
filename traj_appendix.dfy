/** The string helpers of the trajectory appendix generator
    (Experiments/appendix_traj_plots.py): LaTeX escaping of captions, the
    three plot-file-name parsers, the figure block and the label sanitiser. */
module TrajAppendix {
  import opened Base
  import opened Text

  // ------------------------------------------------------------ tex_escape

  /** The first nine entries of the replacements dict of tex_escape, in its
      insertion order, which is the order the loop applies them. */
  const Escapes: seq<(char, string)> := [
    ('&', "\\&"), ('%', "\\%"), ('$', "\\$"), ('#', "\\#"), ('_', "\\_"),
    ('{', "\\{"), ('}', "\\}"), ('~', "\\textasciitilde{}"),
    ('^', "\\textasciicircum{}")]

  const BackslashCode := "\\textbackslash{}"

  /** The whole dict: the backslash entry comes last. */
  const Replacements: seq<(char, string)> := Escapes + [('\\', BackslashCode)]

  /** What the loop of tex_escape computes. */
  function TexEscapeAsWritten(text: string): string
  {
    ReplaceAll(text, Replacements)
  }

  /** tex_escape: one str.replace per dict entry, reassigning the text. */
  method TexEscape(text: string) returns (r: string)
    ensures r == TexEscapeAsWritten(text)
  {
    r := text;
    for i := 0 to |Replacements|
      invariant ReplaceAll(r, Replacements[i..]) == TexEscapeAsWritten(text)
    {
      assert Replacements[i..][1..] == Replacements[i + 1..];
      r := ReplaceChar(r, Replacements[i].0, Replacements[i].1);
    }
  }

  /** The ten characters tex_escape rewrites. */
  predicate Special(c: char)
  {
    c in {'&', '%', '$', '#', '_', '{', '}', '~', '^', '\\'}
  }

  /** A caption with none of the ten characters is left as it is. */
  lemma TexEscapeAsWrittenPlain(text: string)
    requires forall k :: 0 <= k < |text| ==> !Special(text[k])
    ensures TexEscapeAsWritten(text) == text
  {
    ReplaceAllAbsent(text, Replacements);
  }

  /** w occurs in s at position k. */
  predicate OccursAt(s: string, k: nat, w: string)
  {
    k + |w| <= |s| && s[k..k + |w|] == w
  }

  /** Every backslash of s begins a \textbackslash{} sequence. */
  predicate BackslashesCoded(s: string)
  {
    forall k :: 0 <= k < |s| && s[k] == '\\' ==> OccursAt(s, k, BackslashCode)
  }

  lemma BackslashesCodedAppend(a: string, b: string)
    requires BackslashesCoded(a) && BackslashesCoded(b)
    ensures BackslashesCoded(a + b)
  {
    var s := a + b;
    forall k | 0 <= k < |s| && s[k] == '\\'
      ensures OccursAt(s, k, BackslashCode)
    {
      var n := |BackslashCode|;
      if k < |a| {
        assert a[k] == '\\' && a[k..k + n] == BackslashCode;
        assert s[k..k + n] == a[k..k + n];
      } else {
        assert b[k - |a|] == '\\' && b[k - |a|..k - |a| + n] == BackslashCode;
        assert s[k..k + n] == b[k - |a|..k - |a| + n];
      }
    }
  }

  lemma {:induction false} ReplaceBackslashCoded(x: string)
    ensures BackslashesCoded(ReplaceChar(x, '\\', BackslashCode))
  {
    if x != [] {
      var f := c => if c == '\\' then BackslashCode else [c];
      ReplaceBackslashCoded(x[1..]);
      assert BackslashesCoded(f(x[0])) by {
        if x[0] == '\\' {
          assert OccursAt(BackslashCode, 0, BackslashCode);
        }
      }
      BackslashesCodedAppend(f(x[0]), ReplaceChar(x[1..], '\\', BackslashCode));
    }
  }

  /** The loop is the nine escapes followed by the backslash step. */
  lemma AsWrittenSteps(text: string)
    ensures TexEscapeAsWritten(text)
         == ReplaceChar(ReplaceAll(text, Escapes), '\\', BackslashCode)
  {
    var x := ReplaceAll(text, Escapes);
    ReplaceAllSplit(text, Escapes, [('\\', BackslashCode)]);
    assert ReplaceAll(x, [('\\', BackslashCode)])
        == ReplaceAll(ReplaceChar(x, '\\', BackslashCode), []);
  }

  /** Because the backslash runs last, every backslash in the output, the
      ones the earlier replacements wrote included, begins \textbackslash{}. */
  lemma TexEscapeAsWrittenBackslashes(text: string)
    ensures BackslashesCoded(TexEscapeAsWritten(text))
  {
    AsWrittenSteps(text);
    ReplaceBackslashCoded(ReplaceAll(text, Escapes));
  }

  /** A character whose two-character escape is entry i of the dict comes
      out as \textbackslash{} followed by the bare character. */
  lemma TwoCharMangled(c: char, i: nat)
    requires i < 7 && Escapes[i] == (c, ['\\', c])
    requires forall j :: 0 <= j < i ==> Escapes[j].0 != c
    requires forall j :: i < j < |Escapes| ==> Escapes[j].0 != c && Escapes[j].0 != '\\'
    ensures TexEscapeAsWritten([c]) == BackslashCode + [c]
  {
    AsWrittenSteps([c]);
    ReplaceAllSingle(c, Escapes, i);
    BackslashStepOnPair(c);
  }

  lemma BackslashStepOnPair(c: char)
    requires c != '\\'
    ensures ReplaceChar(['\\', c], '\\', BackslashCode) == BackslashCode + [c]
  {
    assert ['\\', c] == ['\\'] + [c];
    ReplaceConcatChar(['\\'], [c], '\\', BackslashCode);
    ReplaceSingle('\\', '\\', BackslashCode);
    ReplaceSingle(c, '\\', BackslashCode);
  }

  /** Nine of the ten escapes are spoiled by the final backslash step. The
      seven two-character ones lose their escape: an underscore, for example,
      becomes \textbackslash{}_, which LaTeX prints as a backslash followed
      by a subscript. */
  lemma TexEscapeAsWrittenMangles(c: char)
    requires c in {'&', '%', '$', '#', '_', '{', '}'}
    ensures TexEscapeAsWritten([c]) == BackslashCode + [c]
  {
    if c == '&' {
      TwoCharMangled(c, 0);
    } else if c == '%' {
      TwoCharMangled(c, 1);
    } else if c == '$' {
      TwoCharMangled(c, 2);
    } else if c == '#' {
      TwoCharMangled(c, 3);
    } else if c == '_' {
      TwoCharMangled(c, 4);
    } else if c == '{' {
      TwoCharMangled(c, 5);
    } else {
      TwoCharMangled(c, 6);
    }
  }

  /** The backslash step on a word code: its leading backslash becomes
      \textbackslash{} and the rest of the word stays. */
  lemma BackslashStepOnWord(rest: string)
    requires '\\' !in rest
    ensures ReplaceChar(['\\'] + rest, '\\', BackslashCode) == BackslashCode + rest
  {
    ReplaceConcatChar(['\\'], rest, '\\', BackslashCode);
    ReplaceSingle('\\', '\\', BackslashCode);
    ReplaceAbsent(rest, '\\', BackslashCode);
  }

  /** Where the tilde stands in the dict, and the characters of its code. */
  lemma TildeCodeFacts()
    ensures |Escapes| == 9 && Escapes[7] == ('~', "\\textasciitilde{}")
    ensures forall j :: 0 <= j < 7 ==> Escapes[j].0 != '~'
    ensures Escapes[8].0 !in Escapes[7].1
    ensures "\\textasciitilde{}" == ['\\'] + "textasciitilde{}" && '\\' !in "textasciitilde{}"
  {
  }

  /** Where the caret stands in the dict, last, and the characters of its code. */
  lemma CaretCodeFacts()
    ensures |Escapes| == 9 && Escapes[8] == ('^', "\\textasciicircum{}")
    ensures forall j :: 0 <= j < 8 ==> Escapes[j].0 != '^'
    ensures "\\textasciicircum{}" == ['\\'] + "textasciicircum{}" && '\\' !in "textasciicircum{}"
  {
  }

  /** A tilde comes out as \textbackslash{}textasciitilde{}. */
  lemma TildeMangled()
    ensures TexEscapeAsWritten("~") == BackslashCode + "textasciitilde{}"
  {
    TildeCodeFacts();
    AsWrittenSteps("~");
    ReplaceAllSingle('~', Escapes, 7);
    BackslashStepOnWord("textasciitilde{}");
  }

  /** A caret comes out as \textbackslash{}textasciicircum{}. */
  lemma CaretMangled()
    ensures TexEscapeAsWritten("^") == BackslashCode + "textasciicircum{}"
  {
    CaretCodeFacts();
    AsWrittenSteps("^");
    ReplaceAllSingle('^', Escapes, 8);
    BackslashStepOnWord("textasciicircum{}");
  }

  /** The two word codes are spoiled as well: a tilde or a caret comes out as
      \textbackslash{} followed by the bare word, which LaTeX prints as a
      backslash and the letters of the word. */
  lemma TexEscapeAsWrittenManglesWords(c: char)
    requires c == '~' || c == '^'
    ensures TexEscapeAsWritten([c]) == BackslashCode + (if c == '~' then "textasciitilde{}" else "textasciicircum{}")
  {
    if c == '~' {
      TildeMangled();
    } else {
      CaretMangled();
    }
  }

  // ------------------------------------------------- tex_escape, corrected

  /** The escape the dict evidently intends for one character. */
  function EscapeChar(c: char): (r: string)
    ensures Special(c) ==> |r| >= 2 && r[0] == '\\'
    ensures !Special(c) ==> r == [c]
  {
    match c
    case '&' => "\\&"
    case '%' => "\\%"
    case '$' => "\\$"
    case '#' => "\\#"
    case '_' => "\\_"
    case '{' => "\\{"
    case '}' => "\\}"
    case '~' => "\\textasciitilde{}"
    case '^' => "\\textasciicircum{}"
    case '\\' => "\\textbackslash{}"
    case _ => [c]
  }

  /** The corrected tex_escape: every character is replaced once, by its
      entry of the dict, so no escape is escaped again. */
  function TexEscapeFixed(text: string): string
  {
    EscapeEach(text, EscapeChar)
  }

  /** The correction changes nothing for captions whose only special
      characters are backslashes. */
  lemma TexEscapeFixedAgrees(text: string)
    requires forall k :: 0 <= k < |text| ==> !Special(text[k]) || text[k] == '\\'
    ensures TexEscapeFixed(text) == TexEscapeAsWritten(text)
  {
    AsWrittenSteps(text);
    EscapesAbsent(text);
    ReplaceAllAbsent(text, Escapes);
    var f := c => if c == '\\' then BackslashCode else [c];
    forall k | 0 <= k < |text| ensures f(text[k]) == EscapeChar(text[k]) {
      BackslashOnly(text[k]);
    }
    EscapeEachAgree(text, f, EscapeChar);
  }

  lemma BackslashOnly(c: char)
    requires !Special(c) || c == '\\'
    ensures EscapeChar(c) == if c == '\\' then BackslashCode else [c]
  {
  }

  lemma EscapesAbsent(text: string)
    requires forall k :: 0 <= k < |text| ==> !Special(text[k]) || text[k] == '\\'
    ensures forall j :: 0 <= j < |Escapes| ==> Escapes[j].0 !in text
  {
    forall j | 0 <= j < |Escapes| ensures Escapes[j].0 !in text {
      assert Special(Escapes[j].0) && Escapes[j].0 != '\\';
    }
  }

  /** Reads escaped text back: each code starts with a backslash; a second
      character other than 't' is the escaped character itself, and the
      three word codes differ at their sixth and eleventh characters. */
  function TexUnescape(s: string): string
    decreases |s|
  {
    if s == [] then []
    else if s[0] != '\\' || |s| < 2 then [s[0]] + TexUnescape(s[1..])
    else if s[1] != 't' then [s[1]] + TexUnescape(s[2..])
    else if |s| >= 16 && s[5] == 'b' then ['\\'] + TexUnescape(s[16..])
    else if |s| >= 18 && s[10] == 'c' then ['^'] + TexUnescape(s[18..])
    else if |s| >= 17 then ['~'] + TexUnescape(s[17..])
    else [s[0]] + TexUnescape(s[1..])
  }

  lemma UnescapeWord(c: char, rest: string)
    requires c in {'~', '^', '\\'}
    ensures TexUnescape(EscapeChar(c) + rest) == [c] + TexUnescape(rest)
  {
    var e := EscapeChar(c);
    var s := e + rest;
    if c == '\\' {
      assert |e| == 16 && s[0] == '\\' && s[1] == 't' && s[5] == 'b';
      assert s[16..] == rest;
    } else if c == '^' {
      assert |e| == 18 && s[0] == '\\' && s[1] == 't' && s[5] == 'a' && s[10] == 'c';
      assert s[18..] == rest;
    } else {
      assert |e| == 17 && s[0] == '\\' && s[1] == 't' && s[5] == 'a' && s[10] == 't';
      assert s[17..] == rest;
    }
  }

  lemma UnescapeOne(c: char, rest: string)
    ensures TexUnescape(EscapeChar(c) + rest) == [c] + TexUnescape(rest)
  {
    var e := EscapeChar(c);
    var s := e + rest;
    if c in {'~', '^', '\\'} {
      UnescapeWord(c, rest);
    } else if Special(c) {
      assert |e| == 2 && s[0] == '\\' && s[1] == c;
      assert s[2..] == rest;
    } else {
      assert s[1..] == rest;
    }
  }

  /** The corrected escape loses nothing: reading it back gives the caption. */
  lemma TexEscapeFixedRoundTrip(text: string)
    ensures TexUnescape(TexEscapeFixed(text)) == text
  {
    forall c: char, rest: string ensures TexUnescape(EscapeChar(c) + rest) == [c] + TexUnescape(rest) {
      UnescapeOne(c, rest);
    }
    EscapeEachReadBack(text, EscapeChar, TexUnescape);
  }

  /** A caption with none of the ten characters is left as it is. */
  lemma TexEscapeFixedPlain(text: string)
    requires forall k :: 0 <= k < |text| ==> !Special(text[k])
    ensures TexEscapeFixed(text) == text
  {
    EscapeEachIdentity(text, EscapeChar);
  }

  // ------------------------------------------------- file-name parsers

  predicate HasPrefix(s: string, p: string) { |p| <= |s| && s[..|p|] == p }

  predicate HasSuffix(s: string, p: string) { |p| <= |s| && s[|s| - |p|..] == p }

  /** What a `[^_]+` group matches. */
  predicate IsPiece(p: string) { p != [] && '_' !in p }

  /** A sweep plot's name, parsed: the iteration count (or history length),
      the mode, the alignment and the optional view. */
  datatype SweepName = SweepName(value: nat, mode: string, align: string, view: Option<string>)

  /** `re.match(head + r"(\d+)" + mid + r"([^_]+)_([^_]+)(?:_([^_]+))?\.png$", name)`:
      after the head, a run of digits and mid, the name must end in ".png"
      and what lies between must be two or three non-empty '_'-free pieces. */
  function ParseSweepName(name: string, head: string, mid: string): Option<SweepName>
  {
    if !HasPrefix(name, head) then None
    else
      var rest := name[|head|..];
      var d := TakeDigits(rest);
      var after := rest[|d|..];
      if d == [] || !HasPrefix(after, mid) || !HasSuffix(after[|mid|..], ".png") then None
      else
        var body := after[|mid|..];
        var parts := Split(body[..|body| - 4], '_');
        if |parts| == 2 && parts[0] != [] && parts[1] != [] then
          Some(SweepName(DigitsValue(d), parts[0], parts[1], None))
        else if |parts| == 3 && parts[0] != [] && parts[1] != [] && parts[2] != [] then
          Some(SweepName(DigitsValue(d), parts[0], parts[1], Some(parts[2])))
        else None
  }

  const IterHead := "iter_"
  const IterMid := "_histories_vs_gt_"
  const HistHead := "hist_"
  const HistMid := "_iters_vs_gt_"

  /** parse_by_iter_name. */
  function ParseByIterName(name: string): Option<SweepName>
  {
    ParseSweepName(name, IterHead, IterMid)
  }

  /** parse_by_hist_name. */
  function ParseByHistName(name: string): Option<SweepName>
  {
    ParseSweepName(name, HistHead, HistMid)
  }

  /** The pieces after mid, joined by '_'. */
  function Tail(mode: string, align: string, view: Option<string>): string
  {
    Join(TailParts(mode, align, view), '_')
  }

  function TailParts(mode: string, align: string, view: Option<string>): seq<string>
  {
    if view.Some? then [mode, align, view.value] else [mode, align]
  }

  /** The name a sweep plot is saved under, digits d spelling the number. */
  function SweepFileName(head: string, d: string, mid: string, mode: string, align: string,
                         view: Option<string>): string
  {
    head + (d + (mid + (Tail(mode, align, view) + ".png")))
  }

  lemma DropPrefix(p: string, s: string)
    ensures HasPrefix(p + s, p) && (p + s)[|p|..] == s
  {
    assert (p + s)[..|p|] == p;
  }

  lemma DropSuffix(s: string, p: string)
    ensures HasSuffix(s + p, p) && (s + p)[..|s|] == s
  {
    assert (s + p)[|s|..] == p;
  }

  lemma Recompose(s: string, n: nat)
    requires n <= |s|
    ensures s == s[..n] + s[n..]
  {
  }

  /** The part after mid ends in ".png" and, without it, splits into the pieces. */
  lemma SweepTail(mode: string, align: string, view: Option<string>)
    requires IsPiece(mode) && IsPiece(align) && (view.Some? ==> IsPiece(view.value))
    ensures var body := Tail(mode, align, view) + ".png";
      HasSuffix(body, ".png") && Split(body[..|body| - 4], '_') == TailParts(mode, align, view)
  {
    var t := Tail(mode, align, view);
    DropSuffix(t, ".png");
    SplitJoin(TailParts(mode, align, view), '_');
  }

  /** Every name of the expected shape is parsed into its number, mode,
      alignment and view; leading zeros in the number are allowed. */
  lemma ParseSweepComplete(head: string, d: string, mid: string, mode: string, align: string,
                           view: Option<string>)
    requires d != [] && AllDigits(d) && mid != [] && !IsDigit(mid[0])
    requires IsPiece(mode) && IsPiece(align) && (view.Some? ==> IsPiece(view.value))
    ensures ParseSweepName(SweepFileName(head, d, mid, mode, align, view), head, mid)
         == Some(SweepName(DigitsValue(d), mode, align, view))
  {
    var body := Tail(mode, align, view) + ".png";
    DropPrefix(head, d + (mid + body));
    TakeDigitsOf(d, mid + body);
    DropPrefix(d, mid + body);
    DropPrefix(mid, body);
    SweepTail(mode, align, view);
  }

  /** A name cut at three points and before its last four characters is
      the concatenation of the pieces. */
  lemma Reassemble(name: string, head: string, d: string, mid: string, core: string)
    requires HasPrefix(name, head)
    requires var rest := name[|head|..]; d <= rest
    requires var after := name[|head|..][|d|..]; HasPrefix(after, mid)
    requires var body := name[|head|..][|d|..][|mid|..]; |body| >= 4 && core == body[..|body| - 4]
    requires HasSuffix(name, ".png")
    ensures name == head + (d + (mid + (core + ".png")))
  {
    var rest := name[|head|..];
    var after := rest[|d|..];
    var body := after[|mid|..];
    Recompose(name, |head|);
    Recompose(rest, |d|);
    Recompose(after, |mid|);
    Recompose(body, |body| - 4);
    assert body[|body| - 4..] == name[|name| - 4..];
  }

  /** Text whose '_'-pieces are those of a tail is that tail. */
  lemma TailOfParts(core: string, mode: string, align: string, view: Option<string>)
    requires Split(core, '_') == TailParts(mode, align, view)
    ensures core == Tail(mode, align, view)
  {
    JoinSplit(core, '_');
  }

  /** Every name that parses has the expected shape: head, digits of the
      number, mid, the pieces joined by '_', and ".png". */
  lemma ParseSweepSound(name: string, head: string, mid: string)
    requires ParseSweepName(name, head, mid).Some?
    ensures var r := ParseSweepName(name, head, mid).value;
      && IsPiece(r.mode) && IsPiece(r.align) && (r.view.Some? ==> IsPiece(r.view.value))
      && exists d :: d != [] && AllDigits(d) && DigitsValue(d) == r.value
           && name == SweepFileName(head, d, mid, r.mode, r.align, r.view)
  {
    var r := ParseSweepName(name, head, mid).value;
    var d := TakeDigits(name[|head|..]);
    var body := name[|head|..][|d|..][|mid|..];
    var core := body[..|body| - 4];
    assert HasSuffix(name, ".png") by {
      assert name[|name| - 4..] == body[|body| - 4..];
    }
    TailOfParts(core, r.mode, r.align, r.view);
    Reassemble(name, head, d, mid, core);
    assert name == SweepFileName(head, d, mid, r.mode, r.align, r.view);
  }

  /** Round trip for parse_by_iter_name and parse_by_hist_name on the names
      the plotting step writes. */
  lemma SweepNameRoundTrip(n: nat, mode: string, align: string, view: Option<string>)
    requires IsPiece(mode) && IsPiece(align) && (view.Some? ==> IsPiece(view.value))
    ensures ParseByIterName(SweepFileName(IterHead, NatToString(n), IterMid, mode, align, view))
         == Some(SweepName(n, mode, align, view))
    ensures ParseByHistName(SweepFileName(HistHead, NatToString(n), HistMid, mode, align, view))
         == Some(SweepName(n, mode, align, view))
  {
    DigitsValueOfNatToString(n);
    ParseSweepComplete(IterHead, NatToString(n), IterMid, mode, align, view);
    ParseSweepComplete(HistHead, NatToString(n), HistMid, mode, align, view);
  }

  /** A name that does not end in ".png" is not parsed. */
  lemma ParseSweepNeedsPng(name: string, head: string, mid: string)
    requires !HasSuffix(name, ".png")
    ensures ParseSweepName(name, head, mid) == None
  {
  }

  /** A name with a single piece after mid (the alignment missing) is not parsed. */
  lemma ParseSweepNeedsAlign(head: string, d: string, mid: string, mode: string)
    requires d != [] && AllDigits(d) && mid != [] && !IsDigit(mid[0]) && IsPiece(mode)
    ensures ParseSweepName(head + (d + (mid + (mode + ".png"))), head, mid) == None
  {
    var body := mode + ".png";
    DropPrefix(head, d + (mid + body));
    TakeDigitsOf(d, mid + body);
    DropPrefix(d, mid + body);
    DropPrefix(mid, body);
    DropSuffix(mode, ".png");
    SplitPiece(mode, '_');
  }

  /** A per-run plot's name, parsed. */
  datatype PerRunName = PerRunName(exp: string, mode: string, align: string)

  const PerRunMarker := "_zed_pg_vs_gt"

  /** s cut at its last sep: what precedes it and what follows it. */
  function SplitLast(s: string, sep: char): Option<(string, string)>
  {
    if s == [] then None
    else if s[|s| - 1] == sep then Some((s[..|s| - 1], []))
    else
      match SplitLast(s[..|s| - 1], sep)
      case None => None
      case Some((p, q)) => Some((p, q + [s[|s| - 1]]))
  }

  lemma {:induction false} SplitLastSpec(s: string, sep: char)
    ensures SplitLast(s, sep).None? <==> sep !in s
    ensures SplitLast(s, sep).Some? ==>
      var (p, q) := SplitLast(s, sep).value; s == p + [sep] + q && sep !in q
  {
    if s != [] {
      var init := s[..|s| - 1];
      SplitLastSpec(init, sep);
      assert s == init + [s[|s| - 1]];
    }
  }

  lemma {:induction false} SplitLastOf(p: string, sep: char, q: string)
    requires sep !in q
    ensures SplitLast(p + [sep] + q, sep) == Some((p, q))
  {
    var s := p + [sep] + q;
    if q == [] {
      assert s[..|s| - 1] == p;
    } else {
      var q0 := q[..|q| - 1];
      assert s[..|s| - 1] == p + [sep] + q0;
      SplitLastOf(p, sep, q0);
      assert q0 + [q[|q| - 1]] == q;
    }
  }

  /** `re.match(r"(.+)_zed_pg_vs_gt_([^_]+)_([^_]+)\.png$", name)`: the
      last two '_'-pieces before ".png" are the mode and the alignment, and
      what precedes them is a non-empty experiment name followed by the
      marker. */
  function ParsePerRunName(name: string): Option<PerRunName>
  {
    if !HasSuffix(name, ".png") then None
    else
      match SplitLast(name[..|name| - 4], '_')
      case None => None
      case Some((front, align)) =>
        match SplitLast(front, '_')
        case None => None
        case Some((pre, mode)) =>
          if mode != [] && align != [] && HasSuffix(pre, PerRunMarker) && |pre| > |PerRunMarker| then
            Some(PerRunName(pre[..|pre| - |PerRunMarker|], mode, align))
          else None
  }

  /** The name a per-run plot is saved under. */
  function PerRunFileName(exp: string, mode: string, align: string): string
  {
    exp + PerRunMarker + "_" + mode + "_" + align + ".png"
  }

  /** Round trip: every per-run name of the expected shape is parsed back
      into its experiment, mode and alignment, whatever the experiment name
      contains. */
  lemma PerRunRoundTrip(exp: string, mode: string, align: string)
    requires exp != [] && IsPiece(mode) && IsPiece(align)
    ensures ParsePerRunName(PerRunFileName(exp, mode, align)) == Some(PerRunName(exp, mode, align))
  {
    var pre := exp + PerRunMarker;
    var front := pre + ['_'] + mode;
    var body := front + ['_'] + align;
    var name := PerRunFileName(exp, mode, align);
    assert name == body + ".png";
    assert name[..|name| - 4] == body;
    SplitLastOf(front, '_', align);
    SplitLastOf(pre, '_', mode);
    assert pre[..|pre| - |PerRunMarker|] == exp;
  }

  /** Every name that parses has the expected shape. */
  lemma PerRunSound(name: string)
    requires ParsePerRunName(name).Some?
    ensures var r := ParsePerRunName(name).value;
      r.exp != [] && IsPiece(r.mode) && IsPiece(r.align)
      && name == PerRunFileName(r.exp, r.mode, r.align)
  {
    var body := name[..|name| - 4];
    SplitLastSpec(body, '_');
    var (front, align) := SplitLast(body, '_').value;
    SplitLastSpec(front, '_');
    var (pre, mode) := SplitLast(front, '_').value;
    var exp := pre[..|pre| - |PerRunMarker|];
    assert pre == exp + PerRunMarker;
    assert name == body + ".png";
  }

  /** A per-run name with one piece after the marker (the alignment missing)
      is not parsed: the marker is then not where the pattern needs it. */
  lemma PerRunNeedsAlign(exp: string, mode: string)
    requires IsPiece(mode)
    ensures ParsePerRunName(exp + PerRunMarker + "_" + mode + ".png") == None
  {
    var name := exp + PerRunMarker + "_" + mode + ".png";
    var front := exp + "_zed_pg_vs";
    var body := front + ['_'] + "gt" + ['_'] + mode;
    assert name == body + ".png";
    assert name[..|name| - 4] == body;
    SplitLastOf(front + ['_'] + "gt", '_', mode);
    SplitLastOf(front, '_', "gt");
    assert front[|front| - 1] == 's';
  }

  // ------------------------------------------------------- figure block

  const FigureBegin := "\\begin{figure}[H]\n"
  const FigureEnd := "\\end{figure}\n\n"
  const GraphicsOpen := "\\centering\n\\includegraphics[width=\\textwidth]{"
  const CaptionOpen := "}\n\\caption{"
  const LabelOpen := "}\n\\label{"

  /** The figure environment around a caption that is already escaped. */
  function FigureBlock(prefix: string, path: string, escaped: string, figLabel: string): string
  {
    FigureBegin + GraphicsOpen + (prefix + path) + CaptionOpen + escaped
      + (LabelOpen + figLabel + "}\n" + FigureEnd)
  }

  /** make_figure_block: the caption goes through tex_escape as written. */
  function MakeFigureBlock(prefix: string, path: string, caption: string, figLabel: string): string
  {
    FigureBlock(prefix, path, TexEscapeAsWritten(caption), figLabel)
  }

  /** The block the corrected escape would write. */
  function MakeFigureBlockFixed(prefix: string, path: string, caption: string, figLabel: string): string
  {
    FigureBlock(prefix, path, TexEscapeFixed(caption), figLabel)
  }

  /** Where the escaped caption starts in a block. */
  function CaptionStart(prefix: string, path: string): nat
  {
    |FigureBegin + GraphicsOpen + (prefix + path) + CaptionOpen|
  }

  lemma OccursExtend(s: string, t: string, k: nat, w: string)
    requires OccursAt(s, k, w)
    ensures OccursAt(s + t, k, w)
  {
    assert (s + t)[k..k + |w|] == s[k..k + |w|];
  }

  lemma OccursEnd(a: string, w: string)
    ensures OccursAt(a + w, |a|, w)
  {
    assert (a + w)[|a|..|a| + |w|] == w;
  }

  lemma SuffixExtend(a: string, b: string, p: string)
    requires HasSuffix(b, p)
    ensures HasSuffix(a + b, p)
  {
    assert (a + b)[|a + b| - |p|..] == b[|b| - |p|..];
  }

  /** Where the parts of a six-part concatenation lie: the first part at
      the start, the last at the end. */
  lemma ConcatEnds(a1: string, a2: string, w: string, c: string, e: string, f: string)
    ensures HasPrefix(a1 + a2 + w + c + e + f, a1) && HasSuffix(a1 + a2 + w + c + e + f, f)
  {
    DropPrefix(a1, a2 + w + c + e + f);
    assert a1 + a2 + w + c + e + f == a1 + (a2 + w + c + e + f);
    DropSuffix(a1 + a2 + w + c + e, f);
  }

  /** The third part of a six-part concatenation lies after the first two. */
  lemma ConcatThird(a1: string, a2: string, w: string, c: string, e: string, f: string)
    ensures OccursAt(a1 + a2 + w + c + e + f, |a1 + a2|, w)
  {
    OccursEnd(a1 + a2, w);
    OccursExtend(a1 + a2 + w, c + e + f, |a1 + a2|, w);
    assert a1 + a2 + w + c + e + f == a1 + a2 + w + (c + e + f);
  }

  /** The fifth part of a six-part concatenation lies after the first four. */
  lemma ConcatFifth(a1: string, a2: string, w: string, c: string, e: string, f: string)
    ensures OccursAt(a1 + a2 + w + c + e + f, |a1 + a2 + w + c|, e)
  {
    OccursEnd(a1 + a2 + w + c, e);
    OccursExtend(a1 + a2 + w + c + e, f, |a1 + a2 + w + c|, e);
  }

  /** A block opens the figure environment and closes it with a blank
      line; the graphics path appears verbatim right after the
      \includegraphics brace, and the escaped caption right after \caption{. */
  lemma FigureBlockShape(prefix: string, path: string, escaped: string, figLabel: string)
    ensures var r := FigureBlock(prefix, path, escaped, figLabel);
      && HasPrefix(r, FigureBegin) && HasSuffix(r, FigureEnd)
      && OccursAt(r, |FigureBegin + GraphicsOpen|, prefix + path)
      && OccursAt(r, CaptionStart(prefix, path), escaped)
  {
    var foot := LabelOpen + figLabel + "}\n" + FigureEnd;
    ConcatEnds(FigureBegin, GraphicsOpen, prefix + path, CaptionOpen, escaped, foot);
    ConcatThird(FigureBegin, GraphicsOpen, prefix + path, CaptionOpen, escaped, foot);
    ConcatFifth(FigureBegin, GraphicsOpen, prefix + path, CaptionOpen, escaped, foot);
    DropSuffix(LabelOpen + figLabel + "}\n", FigureEnd);
    SuffixExtend(FigureBegin + GraphicsOpen + (prefix + path) + CaptionOpen + escaped, foot, FigureEnd);
  }

  /** make_figure_block opens and closes the figure environment, writes the
      graphics path verbatim and the caption as tex_escape writes it; a
      caption without special characters stands in the block verbatim. */
  lemma MakeFigureBlockShape(prefix: string, path: string, caption: string, figLabel: string)
    ensures var r := MakeFigureBlock(prefix, path, caption, figLabel);
      && HasPrefix(r, FigureBegin) && HasSuffix(r, FigureEnd)
      && OccursAt(r, |FigureBegin + GraphicsOpen|, prefix + path)
      && OccursAt(r, CaptionStart(prefix, path), TexEscapeAsWritten(caption))
      && ((forall k :: 0 <= k < |caption| ==> !Special(caption[k])) ==> OccursAt(r, CaptionStart(prefix, path), caption))
  {
    FigureBlockShape(prefix, path, TexEscapeAsWritten(caption), figLabel);
    if forall k :: 0 <= k < |caption| ==> !Special(caption[k]) {
      TexEscapeAsWrittenPlain(caption);
    }
  }

  /** Where x lies in h + (lo + x + t + e): |t| + |e| characters before the end. */
  lemma FootSpot(h: string, lo: string, x: string, t: string, e: string)
    ensures var r := h + (lo + x + t + e); OccursAt(r, |r| - |e| - |t| - |x|, x)
  {
    assert h + (lo + x + t + e) == (h + lo) + x + (t + e);
    OccursEnd(h + lo, x);
    OccursExtend(h + lo + x, t + e, |h + lo|, x);
  }

  /** The label appears verbatim inside \label{...}, just before the
      closing brace, the newline and the end of the figure. */
  lemma MakeFigureBlockLabel(prefix: string, path: string, caption: string, figLabel: string)
    ensures var r := MakeFigureBlock(prefix, path, caption, figLabel);
      OccursAt(r, |r| - |FigureEnd| - 2 - |figLabel|, figLabel)
  {
    var head := FigureBegin + GraphicsOpen + (prefix + path) + CaptionOpen + TexEscapeAsWritten(caption);
    FootSpot(head, LabelOpen, figLabel, "}\n", FigureEnd);
  }

  /** The block make_figure_block writes for the caption "_" holds
      \textbackslash{}_ where the caption goes, which reads back as a
      backslash and an underscore rather than the caption. */
  lemma MakeFigureBlockMangles(prefix: string, path: string, figLabel: string)
    ensures var r := MakeFigureBlock(prefix, path, "_", figLabel);
      var k := CaptionStart(prefix, path);
      && OccursAt(r, k, BackslashCode + "_")
      && TexUnescape(r[k..k + |BackslashCode + "_"|]) == "\\_" != "_"
  {
    TexEscapeAsWrittenMangles('_');
    FigureBlockShape(prefix, path, BackslashCode + "_", figLabel);
    UnescapeWord('\\', "_");
    assert TexUnescape("_") == "_";
  }

  /** The corrected block holds the caption in a form that reads back. */
  lemma MakeFigureBlockFixedCaption(prefix: string, path: string, caption: string, figLabel: string)
    ensures var r := MakeFigureBlockFixed(prefix, path, caption, figLabel);
      var k := CaptionStart(prefix, path);
      && OccursAt(r, k, TexEscapeFixed(caption))
      && TexUnescape(r[k..k + |TexEscapeFixed(caption)|]) == caption
  {
    FigureBlockShape(prefix, path, TexEscapeFixed(caption), figLabel);
    TexEscapeFixedRoundTrip(caption);
  }

  // ---------------------------------------------------------- safe_exp

  predicate IsAsciiAlnum(c: char) { 'a' <= c <= 'z' || 'A' <= c <= 'Z' || '0' <= c <= '9' }

  /** `re.sub(r"[^a-zA-Z0-9]+", "_", exp)`. */
  function SafeExp(exp: string): string
  {
    SubRuns(exp, IsAsciiAlnum, '_')
  }

  /** The sanitised name has only ASCII letters, digits and single '_', is
      empty only for an empty name, keeps every letter and digit in order,
      and sanitising it again changes nothing. */
  lemma SafeExpSpec(exp: string)
    ensures var r := SafeExp(exp);
      && (forall k :: 0 <= k < |r| ==> IsAsciiAlnum(r[k]) || r[k] == '_')
      && NoDoubled(r, '_')
      && (r == [] <==> exp == [])
      && Filter(r, IsAsciiAlnum) == Filter(exp, IsAsciiAlnum)
      && SafeExp(r) == r
  {
    SubRunsChars(exp, IsAsciiAlnum, '_');
    SubRunsNoDoubled(exp, IsAsciiAlnum, '_');
    SubRunsFilter(exp, IsAsciiAlnum, '_');
    SubRunsFixed(SafeExp(exp), IsAsciiAlnum, '_');
  }
}
