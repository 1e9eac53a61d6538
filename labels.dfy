/** Experiment keys and how they are read off a result file's directories
    (Experiments/analyze.py, LABEL_RE, ExpKey, parse_label_from_path). */
module Labels {
  import opened Base
  import opened Text

  /** One run of the sweep: its iteration count and its history length. */
  datatype ExpKey = ExpKey(iters: nat, history: nat) {
    /** The canonical label "<iters>_<history>". */
    function Name(): string
    {
      NatToString(iters) + "_" + NatToString(history)
    }
  }

  predicate IsSeparator(c: char) { c == '_' || c == '-' }

  /** Full match of `^(\d+)[_-](\d+)$` against a directory name; the groups
      are read as decimal integers. */
  function MatchLabel(name: string): Option<ExpKey>
  {
    var d1 := TakeDigits(name);
    var rest := name[|d1|..];
    if d1 != [] && |rest| >= 2 && IsSeparator(rest[0]) && AllDigits(rest[1..]) then
      Some(ExpKey(DigitsValue(d1), DigitsValue(rest[1..])))
    else None
  }

  /** `name` is spelled digits, separator, digits. */
  ghost predicate Spells(name: string, d1: string, sep: char, d2: string)
  {
    && d1 != [] && AllDigits(d1)
    && d2 != [] && AllDigits(d2)
    && IsSeparator(sep)
    && name == d1 + [sep] + d2
  }

  /** Every name the pattern accepts is spelled digits, separator, digits,
      and the key holds the values of the two digit groups. */
  lemma MatchLabelSound(name: string)
    requires MatchLabel(name).Some?
    ensures exists d1, sep, d2 :: (Spells(name, d1, sep, d2)
      && MatchLabel(name).value == ExpKey(DigitsValue(d1), DigitsValue(d2)))
  {
    var d1 := TakeDigits(name);
    var rest := name[|d1|..];
    assert name == d1 + [rest[0]] + rest[1..];
    assert Spells(name, d1, rest[0], rest[1..]);
  }

  /** Every name spelled digits, separator, digits is accepted, with the
      values of its two digit groups. */
  lemma MatchLabelComplete(name: string, d1: string, sep: char, d2: string)
    requires Spells(name, d1, sep, d2)
    ensures MatchLabel(name) == Some(ExpKey(DigitsValue(d1), DigitsValue(d2)))
  {
    assert name == d1 + ([sep] + d2);
    TakeDigitsOf(d1, [sep] + d2);
    assert name[|d1|..] == [sep] + d2;
    assert ([sep] + d2)[1..] == d2;
  }

  /** Round trip: the canonical label of a key, and its dash-separated
      variant, parse back to the key. */
  lemma NameRoundTrip(k: ExpKey)
    ensures MatchLabel(k.Name()) == Some(k)
    ensures MatchLabel(NatToString(k.iters) + "-" + NatToString(k.history)) == Some(k)
  {
    DigitsValueOfNatToString(k.iters);
    DigitsValueOfNatToString(k.history);
    MatchLabelComplete(k.Name(), NatToString(k.iters), '_', NatToString(k.history));
    MatchLabelComplete(NatToString(k.iters) + "-" + NatToString(k.history),
      NatToString(k.iters), '-', NatToString(k.history));
  }

  /** The position of the first name that matches, or |names| when none does. */
  function FirstMatch(names: seq<string>): nat
  {
    if names == [] || MatchLabel(names[0]).Some? then 0 else 1 + FirstMatch(names[1..])
  }

  /** FirstMatch finds the first matching name: every name before it fails
      to match, and it is a match unless it is past the end. */
  lemma {:induction false} FirstMatchSpec(names: seq<string>)
    ensures FirstMatch(names) <= |names|
    ensures FirstMatch(names) < |names| ==> MatchLabel(names[FirstMatch(names)]).Some?
    ensures forall j :: 0 <= j < FirstMatch(names) ==> MatchLabel(names[j]).None?
  {
    if names != [] && MatchLabel(names[0]).None? {
      FirstMatchSpec(names[1..]);
      assert forall j :: 0 < j < |names| ==> names[j] == names[1..][j - 1];
    }
  }

  /** The key of the first name that matches, searching front to back. */
  function FirstLabel(names: seq<string>): Option<ExpKey>
  {
    var j := FirstMatch(names);
    if j < |names| then MatchLabel(names[j]) else None
  }

  /** A FirstLabel result is the match of the nearest matching name; there is
      none exactly when no name matches. */
  lemma FirstLabelSpec(names: seq<string>)
    ensures FirstLabel(names).None? <==> forall j :: 0 <= j < |names| ==> MatchLabel(names[j]).None?
    ensures FirstLabel(names).Some? ==> exists j :: (0 <= j < |names| && MatchLabel(names[j]) == FirstLabel(names)
      && forall j' :: 0 <= j' < j ==> MatchLabel(names[j']).None?)
  {
    FirstMatchSpec(names);
  }

  function Reverse(s: seq<string>): (r: seq<string>)
    ensures |r| == |s| && forall k :: 0 <= k < |s| ==> r[k] == s[|s| - 1 - k]
  {
    if s == [] then [] else Reverse(s[1..]) + [s[0]]
  }

  /** The names of a resolved path's ancestors, nearest first (Path.parents):
      the directories above the file, then the filesystem root, whose name is
      empty.  The path is its components below the root, the file last. */
  function Parents(path: seq<string>): seq<string>
  {
    if path == [] then [] else Reverse(path[..|path| - 1]) + [""]
  }

  /** What parse_label_from_path returns or raises for a resolved path. */
  function LabelOfPath(path: seq<string>): Result<ExpKey>
  {
    match FirstLabel(Parents(path))
    case Some(k) => Ok(k)
    case None => Err(LabelNotFound(path))
  }

  /** The walk up the parents with an early return. */
  method ParseLabelFromPath(path: seq<string>) returns (r: Result<ExpKey>)
    ensures r == LabelOfPath(path)
  {
    var parents := Parents(path);
    FirstMatchSpec(parents);
    var j := 0;
    while j < |parents|
      invariant 0 <= j <= |parents|
      invariant forall j' :: 0 <= j' < j ==> MatchLabel(parents[j']).None?
    {
      var m := MatchLabel(parents[j]);
      if m.Some? {
        return Ok(m.value);
      }
      j := j + 1;
    }
    return Err(LabelNotFound(path));
  }

  /** A file nested anywhere below a directory named after key k, with no
      labelled directory in between, is attributed to k; the file's own name
      plays no part (e.g. 10_1/outputs/metrics.csv gives (10, 1)). */
  lemma {:induction false} NestedLayout(above: seq<string>, k: ExpKey, between: seq<string>, file: string)
    requires forall j :: 0 <= j < |between| ==> MatchLabel(between[j]).None?
    ensures LabelOfPath(above + [k.Name()] + between + [file]) == Ok(k)
  {
    var path := above + [k.Name()] + between + [file];
    var dirs := above + [k.Name()] + between;
    assert path[..|path| - 1] == dirs;
    var ps := Parents(path);
    NameRoundTrip(k);
    assert ps[|between|] == k.Name();
    forall j | 0 <= j < |between| ensures MatchLabel(ps[j]).None? {
      assert ps[j] == between[|between| - 1 - j];
    }
    assert MatchLabel(ps[|between|]).Some?;
    FirstMatchSpec(ps);
    assert FirstMatch(ps) == |between|;
  }
}
