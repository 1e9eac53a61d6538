/** The string helpers of the parameter-grid appendix generator
    (Experiments/appendix_pg_results.py): LaTeX escaping, LaTeX labels, the
    figure-path prefix and the comma-separated filter options. */
module PgAppendix {
  import opened Text

  // ------------------------------------------------------------ tex_escape

  /** The nine str.replace calls of tex_escape, backslash first, in the
      order the source applies them. */
  const Replacements: seq<(char, string)> := [
    ('\\', "\\textbackslash{}"), ('_', "\\_"), ('%', "\\%"), ('&', "\\&"),
    ('#', "\\#"), ('{', "\\{"), ('}', "\\}"), ('^', "\\^{}"), ('~', "\\~{}")]

  /** tex_escape. */
  function TexEscape(s: string): string
  {
    ReplaceAll(s, Replacements)
  }

  /** The characters tex_escape rewrites. */
  predicate Special(c: char)
  {
    c in {'\\', '_', '%', '&', '#', '{', '}', '^', '~'}
  }

  /** What the chain does to one character. The backslash's own braces are
      escaped again by the later brace replacements, while the braces that
      the ^ and ~ replacements add come after those and stay bare. */
  function EscapeChar(c: char): (r: string)
    ensures Special(c) ==> |r| >= 2 && r[0] == '\\'
    ensures !Special(c) ==> r == [c]
  {
    match c
    case '\\' => "\\textbackslash" + "\\{" + "\\}"
    case '_' => "\\_"
    case '%' => "\\%"
    case '&' => "\\&"
    case '#' => "\\#"
    case '{' => "\\{"
    case '}' => "\\}"
    case '^' => "\\^{}"
    case '~' => "\\~{}"
    case _ => [c]
  }

  lemma BackslashWordKept()
    ensures ReplaceAll("\\textbackslash", Replacements[1..]) == "\\textbackslash"
  {
    ReplaceAllAbsent("\\textbackslash", Replacements[1..]);
  }

  lemma BracesAfterBackslash()
    ensures ReplaceAll("{", Replacements[1..]) == "\\{"
    ensures ReplaceAll("}", Replacements[1..]) == "\\}"
  {
    ReplaceAllSingle('{', Replacements[1..], 4);
    ReplaceAllSingle('}', Replacements[1..], 5);
  }

  /** The backslash: the braces of its replacement are escaped again by the
      later steps. */
  lemma TexEscapeBackslash()
    ensures TexEscape("\\") == EscapeChar('\\')
  {
    var rest := Replacements[1..];
    ReplaceSingle('\\', '\\', "\\textbackslash{}");
    var w := "\\textbackslash";
    assert "\\textbackslash{}" == w + "{" + "}";
    ReplaceAllConcat(w + "{", "}", rest);
    ReplaceAllConcat(w, "{", rest);
    BackslashWordKept();
    BracesAfterBackslash();
  }

  /** The patterns of the chain, step by step. */
  lemma PatternsInOrder()
    ensures |Replacements| == 9
    ensures Replacements[0].0 == '\\' && Replacements[1].0 == '_' && Replacements[2].0 == '%'
    ensures Replacements[3].0 == '&' && Replacements[4].0 == '#' && Replacements[5].0 == '{'
    ensures Replacements[6].0 == '}' && Replacements[7].0 == '^' && Replacements[8].0 == '~'
  {
  }

  /** The escapes of the second and third steps come out as written. */
  lemma TexEscapeUnderscorePercent(c: char)
    requires c == '_' || c == '%'
    ensures TexEscape([c]) == EscapeChar(c)
  {
    PatternsInOrder();
    if c == '_' {
      ReplaceAllSingle(c, Replacements, 1);
      assert Replacements[1].1 == EscapeChar(c);
    } else {
      ReplaceAllSingle(c, Replacements, 2);
      assert Replacements[2].1 == EscapeChar(c);
    }
  }

  /** So do those of the fourth and fifth steps. */
  lemma TexEscapeAmpersandHash(c: char)
    requires c == '&' || c == '#'
    ensures TexEscape([c]) == EscapeChar(c)
  {
    PatternsInOrder();
    if c == '&' {
      ReplaceAllSingle(c, Replacements, 3);
      assert Replacements[3].1 == EscapeChar(c);
    } else {
      ReplaceAllSingle(c, Replacements, 4);
      assert Replacements[4].1 == EscapeChar(c);
    }
  }

  /** A brace on its own is escaped once, by its own step. */
  lemma TexEscapeBraces(c: char)
    requires c == '{' || c == '}'
    ensures TexEscape([c]) == EscapeChar(c)
  {
    PatternsInOrder();
    if c == '{' {
      ReplaceAllSingle(c, Replacements, 5);
      assert Replacements[5].1 == EscapeChar(c);
    } else {
      ReplaceAllSingle(c, Replacements, 6);
      assert Replacements[6].1 == EscapeChar(c);
    }
  }

  /** The braces the caret and tilde steps add come after the brace steps and stay bare. */
  lemma TexEscapeCaretTilde(c: char)
    requires c == '^' || c == '~'
    ensures TexEscape([c]) == EscapeChar(c)
  {
    PatternsInOrder();
    if c == '^' {
      ReplaceAllSingle(c, Replacements, 7);
      assert Replacements[7].1 == EscapeChar(c);
    } else {
      ReplaceAllSingle(c, Replacements, 8);
      assert Replacements[8].1 == EscapeChar(c);
    }
  }

  /** What tex_escape does to each single character. */
  lemma TexEscapeOne(c: char)
    ensures TexEscape([c]) == EscapeChar(c)
  {
    PatternsInOrder();
    if c == '\\' {
      TexEscapeBackslash();
    } else if c == '_' || c == '%' {
      TexEscapeUnderscorePercent(c);
    } else if c == '&' || c == '#' {
      TexEscapeAmpersandHash(c);
    } else if c == '{' || c == '}' {
      TexEscapeBraces(c);
    } else if c == '^' || c == '~' {
      TexEscapeCaretTilde(c);
    } else {
      ReplaceAllUntouched(c, Replacements);
    }
  }

  /** tex_escape is the per-character table above applied to each character. */
  lemma TexEscapeIsPerChar(s: string)
    ensures TexEscape(s) == EscapeEach(s, EscapeChar)
  {
    ReplaceAllPerChar(s, Replacements);
    forall k | 0 <= k < |s|
      ensures ReplaceAll([s[k]], Replacements) == EscapeChar(s[k])
    {
      TexEscapeOne(s[k]);
    }
    EscapeEachAgree(s, x => ReplaceAll([x], Replacements), EscapeChar);
  }

  /** A string with no character that tex_escape rewrites comes out unchanged. */
  lemma TexEscapePlain(s: string)
    requires forall k :: 0 <= k < |s| ==> !Special(s[k])
    ensures TexEscape(s) == s
  {
    TexEscapeIsPerChar(s);
    EscapeEachIdentity(s, EscapeChar);
  }

  /** Reads escaped text back: each code starts with a backslash and its
      second character tells which one it is; the backslash's word is
      followed either by escaped braces (as tex_escape writes it) or by bare
      ones (as the corrected escape below writes it). */
  function TexUnescape(s: string): string
    decreases |s|
  {
    if s == [] then []
    else if s[0] != '\\' || |s| < 2 then [s[0]] + TexUnescape(s[1..])
    else if s[1] == 't' && |s| >= 18 && s[14] == '\\' then ['\\'] + TexUnescape(s[18..])
    else if s[1] == 't' && |s| >= 16 then ['\\'] + TexUnescape(s[16..])
    else if (s[1] == '^' || s[1] == '~') && |s| >= 4 then [s[1]] + TexUnescape(s[4..])
    else [s[1]] + TexUnescape(s[2..])
  }

  /** Reading back one escaped character. */
  lemma UnescapeOne(c: char, rest: string)
    ensures TexUnescape(EscapeChar(c) + rest) == [c] + TexUnescape(rest)
  {
    var e := EscapeChar(c);
    var s := e + rest;
    if c == '\\' {
      assert |e| == 18 && s[0] == '\\' && s[1] == 't' && s[14] == '\\';
      assert s[18..] == rest;
    } else if c == '^' || c == '~' {
      assert |e| == 4 && s[0] == '\\' && s[1] == c;
      assert s[4..] == rest;
    } else if Special(c) {
      assert |e| == 2 && s[0] == '\\' && s[1] == c;
      assert s[2..] == rest;
    } else {
      assert s[1..] == rest;
    }
  }

  /** Escaping loses nothing: reading the escaped text back gives the input. */
  lemma {:induction false} TexEscapeRoundTrip(s: string)
    ensures TexUnescape(TexEscape(s)) == s
  {
    TexEscapeIsPerChar(s);
    forall c: char, rest: string ensures TexUnescape(EscapeChar(c) + rest) == [c] + TexUnescape(rest) {
      UnescapeOne(c, rest);
    }
    EscapeEachReadBack(s, EscapeChar, TexUnescape);
  }

  // ------------------------------------------- tex_escape, corrected

  /** The code LaTeX typesets as a backslash. */
  const BackslashCode := "\\textbackslash{}"

  /** The evidently intended table: a backslash becomes \textbackslash{}
      with bare braces, every other character as tex_escape writes it. */
  function EscapeCharFixed(c: char): (r: string)
    ensures c == '\\' ==> r == BackslashCode
    ensures c != '\\' ==> r == EscapeChar(c)
  {
    if c == '\\' then BackslashCode else EscapeChar(c)
  }

  /** tex_escape with its backslash code left intact. */
  function TexEscapeFixed(s: string): string
  {
    EscapeEach(s, EscapeCharFixed)
  }

  /** A lone backslash is written as \textbackslash{}. */
  lemma TexEscapeFixedBackslash()
    ensures TexEscapeFixed("\\") == BackslashCode
  {
    assert "\\"[1..] == [];
    assert EscapeEach("\\", EscapeCharFixed) == EscapeCharFixed('\\') + EscapeEach([], EscapeCharFixed);
  }

  /** Without a backslash in the input, the corrected escape is tex_escape. */
  lemma TexEscapeFixedAgrees(s: string)
    requires '\\' !in s
    ensures TexEscapeFixed(s) == TexEscape(s)
  {
    TexEscapeIsPerChar(s);
    EscapeEachAgree(s, EscapeCharFixed, EscapeChar);
  }

  lemma UnescapeOneFixed(c: char, rest: string)
    ensures TexUnescape(EscapeCharFixed(c) + rest) == [c] + TexUnescape(rest)
  {
    if c == '\\' {
      var s := BackslashCode + rest;
      assert |BackslashCode| == 16 && s[0] == '\\' && s[1] == 't' && s[14] == '{';
      assert s[16..] == rest;
    } else {
      UnescapeOne(c, rest);
    }
  }

  /** The corrected escape loses nothing: reading it back gives the input,
      backslashes included. */
  lemma TexEscapeFixedRoundTrip(s: string)
    ensures TexUnescape(TexEscapeFixed(s)) == s
  {
    forall c: char, rest: string ensures TexUnescape(EscapeCharFixed(c) + rest) == [c] + TexUnescape(rest) {
      UnescapeOneFixed(c, rest);
    }
    EscapeEachReadBack(s, EscapeCharFixed, TexUnescape);
  }

  // ------------------------------------------------------------- tex_label

  /** The class [a-z0-9] of the label pattern. */
  predicate IsLowerAlnum(c: char) { 'a' <= c <= 'z' || '0' <= c <= '9' }

  predicate IsDash(c: char) { c == '-' }

  predicate NotDash(c: char) { c != '-' }

  /** str.lower() on the ASCII letters. */
  function LowerChar(c: char): char
  {
    if 'A' <= c <= 'Z' then (c as int - 'A' as int + 'a' as int) as char else c
  }

  function Lower(s: string): string
  {
    seq(|s|, k requires 0 <= k < |s| => LowerChar(s[k]))
  }

  /** Labels are cut to this many characters. */
  const LabelMax := 90

  /** tex_label: lower-case, every run outside [a-z0-9] becomes one '-',
      runs of '-' collapse, the ends lose their dashes, and the result is
      cut to LabelMax characters. */
  function TexLabel(s: string): string
  {
    Cut(Strip(SubRuns(Slug(s), NotDash, '-'), IsDash))
  }

  /** The first substitution: lower-case, then one '-' per run outside [a-z0-9]. */
  function Slug(s: string): string
  {
    SubRuns(Lower(s), IsLowerAlnum, '-')
  }

  /** The final slice [:LabelMax]. */
  function Cut(t: string): string
  {
    if |t| <= LabelMax then t else t[..LabelMax]
  }

  /** The text a label is made of: letters and digits and single dashes. */
  predicate LabelChars(s: string)
  {
    (forall k :: 0 <= k < |s| ==> IsLowerAlnum(s[k]) || s[k] == '-') && NoDoubled(s, '-')
  }

  /** The first substitution already leaves no run of dashes, so the second
      one changes nothing. */
  lemma SqueezeRedundant(s: string)
    ensures SubRuns(Slug(s), NotDash, '-') == Slug(s) && LabelChars(Slug(s))
    ensures TexLabel(s) == Cut(Strip(Slug(s), IsDash))
  {
    var slugged := Slug(s);
    SubRunsChars(Lower(s), IsLowerAlnum, '-');
    SubRunsNoDoubled(Lower(s), IsLowerAlnum, '-');
    SubRunsFixed(slugged, NotDash, '-');
  }

  lemma LabelCharsSlice(x: string, i: nat, j: nat)
    requires i <= j <= |x| && LabelChars(x)
    ensures LabelChars(x[i..j])
  {
    NoDoubledSlice(x, '-', i, j);
    forall k | 0 <= k < j - i ensures IsLowerAlnum(x[i..j][k]) || x[i..j][k] == '-' {
      assert x[i..j][k] == x[i + k];
    }
  }

  lemma LabelCharsStrip(x: string)
    requires LabelChars(x)
    ensures LabelChars(Strip(x, IsDash))
  {
    var d := DropWhile(x, IsDash);
    LabelCharsSlice(x, |x| - |d|, |x|);
    var t := DropWhileEnd(d, IsDash);
    LabelCharsSlice(d, 0, |t|);
    assert d[0..|t|] == t;
  }

  /** Every label is at most LabelMax characters of [a-z0-9-], has no two
      dashes in a row and does not start with a dash. */
  lemma TexLabelShape(s: string)
    ensures var r := TexLabel(s);
      && |r| <= LabelMax
      && LabelChars(r)
      && (r == [] || r[0] != '-')
  {
    SqueezeRedundant(s);
    var t := Strip(Slug(s), IsDash);
    LabelCharsStrip(Slug(s));
    LabelCharsSlice(t, 0, if |t| <= LabelMax then |t| else LabelMax);
    assert t[0..|t|] == t;
  }

  /** Letters and digits survive, in order, while the label is under the cap. */
  lemma TexLabelKeepsAlnum(s: string)
    ensures |TexLabel(s)| < LabelMax ==>
      Filter(TexLabel(s), IsLowerAlnum) == Filter(Lower(s), IsLowerAlnum)
  {
    SqueezeRedundant(s);
    SlugFilter(s);
    if |TexLabel(s)| < LabelMax {
      assert TexLabel(s) == Strip(Slug(s), IsDash);
    }
  }

  /** The slug and its strip keep the letters and digits of the lower-cased text. */
  lemma SlugFilter(s: string)
    ensures Filter(Strip(Slug(s), IsDash), IsLowerAlnum) == Filter(Lower(s), IsLowerAlnum)
  {
    StripFilter(Slug(s), IsDash, IsLowerAlnum);
    SubRunsFilter(Lower(s), IsLowerAlnum, '-');
  }

  lemma LowerLabelText(x: string)
    requires LabelChars(x)
    ensures Lower(x) == x
  {
    forall k | 0 <= k < |x| ensures Lower(x)[k] == x[k] {
      assert IsLowerAlnum(x[k]) || x[k] == '-';
    }
  }

  /** On text made of label characters only the strip and the cut act. */
  lemma TexLabelOfLabelChars(y: string)
    requires LabelChars(y)
    ensures TexLabel(y) == Cut(Strip(y, IsDash))
  {
    LowerLabelText(y);
    SubRunsFixed(y, IsLowerAlnum, '-');
    SubRunsFixed(y, NotDash, '-');
  }

  /** Text that already has a label's form is only cut to LabelMax. */
  lemma TexLabelOfLabelText(x: string)
    requires LabelChars(x) && (x == [] || (x[0] != '-' && x[|x| - 1] != '-'))
    ensures TexLabel(x) == if |x| <= LabelMax then x else x[..LabelMax]
  {
    TexLabelOfLabelChars(x);
    assert x == [] || (!IsDash(x[0]) && !IsDash(x[|x| - 1]));
    assert Strip(x, IsDash) == x;
  }

  /** A label that does not end in a dash is its own label. */
  lemma TexLabelIdempotent(s: string)
    requires var r := TexLabel(s); r == [] || r[|r| - 1] != '-'
    ensures TexLabel(TexLabel(s)) == TexLabel(s)
  {
    TexLabelShape(s);
    TexLabelOfLabelText(TexLabel(s));
  }

  lemma DashAppended(x: string)
    requires LabelChars(x) && x != [] && x[0] != '-' && x[|x| - 1] != '-'
    ensures LabelChars(x + "-") && Strip(x + "-", IsDash) == x
  {
    var y := x + "-";
    forall k | 0 <= k < |y| - 1 ensures !(y[k] == '-' && y[k + 1] == '-') {
      if k < |x| - 1 { assert y[k] == x[k] && y[k + 1] == x[k + 1]; }
    }
    assert DropWhile(y, IsDash) == y;
    assert y[..|y| - 1] == x;
    assert DropWhileEnd(y, IsDash) == DropWhileEnd(x, IsDash) == x;
  }

  /** A label with one dash appended loses the dash again. */
  lemma TexLabelTrailingDash(x: string)
    requires LabelChars(x) && x != [] && x[0] != '-' && x[|x| - 1] != '-' && |x| <= LabelMax
    ensures TexLabel(x + "-") == x
  {
    DashAppended(x);
    TexLabelOfLabelChars(x + "-");
  }

  lemma AlnumLabelChars(a: string)
    requires forall k :: 0 <= k < |a| ==> IsLowerAlnum(a[k])
    ensures LabelChars(a)
  {
  }

  lemma CutExampleChars(a: string, b: char)
    requires forall k :: 0 <= k < |a| ==> IsLowerAlnum(a[k])
    requires IsLowerAlnum(b) && a != []
    ensures LabelChars(a + ['-', b])
  {
    var x := a + ['-', b];
    forall k | 0 <= k < |x| ensures IsLowerAlnum(x[k]) || x[k] == '-' {
      if k < |a| { assert x[k] == a[k]; }
    }
    forall k | 0 <= k < |x| - 1 ensures !(x[k] == '-' && x[k + 1] == '-') {
      if k < |a| { assert x[k] == a[k]; }
    }
  }

  lemma CutAtDash(a: string, b: char)
    requires |a| == LabelMax - 1
    ensures |a + ['-', b]| > LabelMax && (a + ['-', b])[..LabelMax] == a + "-"
  {
  }

  /** The cut can leave a trailing dash, so a label is not always its own
      label: LabelMax - 1 letters, a dash and one more letter. */
  lemma TexLabelCutLeavesDash(a: string, b: char)
    requires |a| == LabelMax - 1 && forall k :: 0 <= k < |a| ==> IsLowerAlnum(a[k])
    requires IsLowerAlnum(b)
    ensures TexLabel(a + ['-', b]) == a + "-"
    ensures TexLabel(TexLabel(a + ['-', b])) == a
  {
    var x := a + ['-', b];
    CutExampleChars(a, b);
    TexLabelOfLabelText(x);
    CutAtDash(a, b);
    AlnumLabelChars(a);
    TexLabelTrailingDash(a);
  }

  // ------------------------------------------------------ figure path prefix

  /** The --figprefix normalisation: a non-empty prefix gets a trailing '/'. */
  function NormalizePrefix(p: string): string
  {
    if p != [] && p[|p| - 1] != '/' then p + "/" else p
  }

  /** The prefix is kept, at most a '/' is added, the empty prefix stays
      empty, a non-empty result ends in '/', and normalising twice is
      normalising once. */
  lemma NormalizePrefixSpec(p: string)
    ensures var r := NormalizePrefix(p);
      && r[..|p|] == p && |r| <= |p| + 1
      && (r == [] <==> p == [])
      && (r != [] ==> r[|r| - 1] == '/')
      && NormalizePrefix(r) == r
  {
  }

  // ---------------------------------------------------------- --only_* sets

  /** The characters str.strip() removes: those str.isspace() accepts, the
      ASCII separators 0x1C-0x1F included. */
  predicate IsSpace(c: char)
  {
    || '\U{0009}' <= c <= '\U{000D}'
    || '\U{001C}' <= c <= '\U{0020}'
    || c == '\U{0085}' || c == '\U{00A0}' || c == '\U{1680}'
    || '\U{2000}' <= c <= '\U{200A}'
    || c == '\U{2028}' || c == '\U{2029}' || c == '\U{202F}' || c == '\U{205F}' || c == '\U{3000}'
  }

  /** {s.strip() for s in arg.split(",") if s.strip()}. */
  function OnlySet(arg: string): set<string>
  {
    set item | item in Split(arg, ',') && Strip(item, IsSpace) != [] :: Strip(item, IsSpace)
  }

  /** Every name in the set is non-empty, has no comma and no whitespace at
      either end. */
  lemma OnlySetNames(arg: string)
    ensures forall name :: name in OnlySet(arg) ==>
      name != [] && ',' !in name && !IsSpace(name[0]) && !IsSpace(name[|name| - 1])
  {
    forall name | name in OnlySet(arg)
      ensures name != [] && ',' !in name && !IsSpace(name[0]) && !IsSpace(name[|name| - 1])
    {
      var item :| item in Split(arg, ',') && Strip(item, IsSpace) != [] && name == Strip(item, IsSpace);
      StripKeepsAbsent(item, IsSpace, ',');
    }
  }

  /** Names already trimmed and comma-free, joined with commas, come back as
      exactly the set of those names. */
  lemma OnlySetJoin(names: seq<string>)
    requires forall k :: 0 <= k < |names| ==> names[k] != [] && ',' !in names[k]
    requires forall k :: 0 <= k < |names| ==> !IsSpace(names[k][0]) && !IsSpace(names[k][|names[k]| - 1])
    ensures OnlySet(Join(names, ',')) == set k | 0 <= k < |names| :: names[k]
  {
    if names == [] {
      assert Split([], ',') == [[]];
      assert Strip([], IsSpace) == [];
    } else {
      SplitJoin(names, ',');
      forall k | 0 <= k < |names| ensures Strip(names[k], IsSpace) == names[k] { }
    }
  }
}
