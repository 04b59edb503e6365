/**
 * `createSlugFromName`: the alliance name lowercased, stripped of everything
 * but lower-case letters, digits, whitespace and hyphens, with whitespace runs
 * and then hyphen runs each turned into one hyphen, and finally trimmed of
 * whitespace. Case mapping is modelled for ASCII letters only.
 */
module Slug {

  /** Lower-case ASCII letters and digits: the characters a slug is made of besides `-`. */
  predicate IsLowerAlnum(c: char)
  {
    'a' <= c <= 'z' || '0' <= c <= '9'
  }

  /** The characters of the regular-expression class `\s`: ECMAScript white space and line terminators. */
  predicate IsJsWhitespace(c: char)
  {
    || c == '\t' || c == '\n' || c == '\U{000B}' || c == '\U{000C}' || c == '\r' || c == ' '
    || c == '\U{00A0}' || c == '\U{1680}' || ('\U{2000}' <= c <= '\U{200A}')
    || c == '\U{2028}' || c == '\U{2029}' || c == '\U{202F}' || c == '\U{205F}'
    || c == '\U{3000}' || c == '\U{FEFF}'
  }

  /** The characters `[a-z0-9\s-]` that survive the removal of special characters. */
  predicate IsKept(c: char)
  {
    IsLowerAlnum(c) || IsJsWhitespace(c) || c == '-'
  }

  function ToLowerChar(c: char): char
  {
    if 'A' <= c <= 'Z' then (c as int + 32) as char else c
  }

  /** `toLowerCase`, on ASCII letters. */
  function ToLower(s: string): (r: string)
    ensures |r| == |s|
    ensures forall i :: 0 <= i < |s| ==> r[i] == ToLowerChar(s[i])
    decreases |s|
  {
    if s == [] then [] else [ToLowerChar(s[0])] + ToLower(s[1..])
  }

  /** `.replace(/[^a-z0-9\s-]/g, '')`. */
  function RemoveSpecial(s: string): (r: string)
    ensures |r| <= |s|
    ensures forall i :: 0 <= i < |r| ==> IsKept(r[i])
    ensures forall c :: IsKept(c) ==> multiset(r)[c] == multiset(s)[c]
    decreases |s|
  {
    if s == [] then []
    else
      assert s == [s[0]] + s[1..];
      if IsKept(s[0]) then [s[0]] + RemoveSpecial(s[1..])
      else RemoveSpecial(s[1..])
  }

  /** The two kinds of run the pipeline replaces by a single hyphen. */
  datatype RunKind = Whitespace | Hyphen

  predicate InRun(kind: RunKind, c: char)
  {
    match kind
    case Whitespace => IsJsWhitespace(c)
    case Hyphen => c == '-'
  }

  /** What is left of `s` after its leading run of `kind`. */
  function SkipRun(s: string, kind: RunKind): (rest: string)
    ensures |rest| <= |s|
    ensures rest == s[|s| - |rest|..]
    ensures rest == [] || !InRun(kind, rest[0])
    ensures forall i :: 0 <= i < |s| - |rest| ==> InRun(kind, s[i])
    decreases |s|
  {
    if s != [] && InRun(kind, s[0]) then SkipRun(s[1..], kind) else s
  }

  /** `.replace(/\s+/g, '-')` for `Whitespace` and `.replace(/-+/g, '-')` for `Hyphen`. */
  function ReplaceRuns(s: string, kind: RunKind): (r: string)
    ensures |r| <= |s|
    ensures forall i :: 0 <= i < |r| ==> r[i] == '-' || !InRun(kind, r[i])
    decreases |s|
  {
    if s == [] then []
    else if InRun(kind, s[0]) then "-" + ReplaceRuns(SkipRun(s, kind), kind)
    else [s[0]] + ReplaceRuns(s[1..], kind)
  }

  /** `s` without its leading whitespace. */
  function TrimStart(s: string): (r: string)
    ensures |r| <= |s| && r == s[|s| - |r|..]
    ensures r == [] || !IsJsWhitespace(r[0])
    ensures forall i :: 0 <= i < |s| - |r| ==> IsJsWhitespace(s[i])
    decreases |s|
  {
    if s != [] && IsJsWhitespace(s[0]) then
      var r := TrimStart(s[1..]);
      assert s[1..][|s| - 1 - |r|..] == s[|s| - |r|..];
      r
    else s
  }

  /** `s` without its trailing whitespace. */
  function TrimEnd(s: string): (r: string)
    ensures |r| <= |s| && r == s[..|r|]
    ensures r == [] || !IsJsWhitespace(r[|r| - 1])
    ensures forall i :: |r| <= i < |s| ==> IsJsWhitespace(s[i])
    decreases |s|
  {
    if s != [] && IsJsWhitespace(s[|s| - 1]) then
      var r := TrimEnd(s[..|s| - 1]);
      assert s[..|s| - 1][..|r|] == s[..|r|];
      r
    else s
  }

  /** Every character of `t` is whitespace. */
  predicate AllWhitespace(t: string)
  {
    forall i :: 0 <= i < |t| ==> IsJsWhitespace(t[i])
  }

  /** `r` is the slice of `s` from `lo`, with only whitespace before it and after it. */
  predicate IsWhitespaceFramed(s: string, lo: int, r: string)
  {
    && 0 <= lo && lo + |r| <= |s|
    && r == s[lo..lo + |r|]
    && AllWhitespace(s[..lo])
    && AllWhitespace(s[lo + |r|..])
  }

  /**
   * `.trim()`: the result is the middle of `s` once the whitespace at both
   * ends is dropped, and only that whitespace.
   */
  function Trim(s: string): (r: string)
    ensures |r| <= |s|
    ensures r == [] || (!IsJsWhitespace(r[0]) && !IsJsWhitespace(r[|r| - 1]))
    ensures exists lo :: IsWhitespaceFramed(s, lo, r)
    ensures (forall i :: 0 <= i < |s| ==> !IsJsWhitespace(s[i])) ==> r == s
  {
    var t := TrimStart(s);
    var r := TrimEnd(t);
    MiddleSlice(s, t, r);
    r
  }

  /**
   * A prefix `r` of a suffix `t` of `s` is a slice of `s`, and whitespace
   * around `t` in `s` and after `r` in `t` is whitespace around that slice.
   */
  lemma MiddleSlice(s: string, t: string, r: string)
    requires |t| <= |s| && t == s[|s| - |t|..]
    requires |r| <= |t| && r == t[..|r|]
    requires forall i :: 0 <= i < |s| - |t| ==> IsJsWhitespace(s[i])
    requires forall i :: |r| <= i < |t| ==> IsJsWhitespace(t[i])
    requires t == [] || !IsJsWhitespace(t[0])
    requires r == [] || !IsJsWhitespace(r[|r| - 1])
    ensures r == [] || (!IsJsWhitespace(r[0]) && !IsJsWhitespace(r[|r| - 1]))
    ensures IsWhitespaceFramed(s, |s| - |t|, r)
    ensures (forall i :: 0 <= i < |s| ==> !IsJsWhitespace(s[i])) ==> r == s
  {
    var lo := |s| - |t|;
    SliceOfSlices(s, t, r);
    HeadWhitespace(s, lo);
    TailWhitespace(s, t, r);
    if r != [] {
      assert r[0] == t[0];
    }
    NoWhitespaceUntrimmed(s, t, r);
  }

  lemma SliceOfSlices(s: string, t: string, r: string)
    requires |t| <= |s| && t == s[|s| - |t|..]
    requires |r| <= |t| && r == t[..|r|]
    ensures r == s[|s| - |t|..|s| - |t| + |r|]
  {
  }

  lemma HeadWhitespace(s: string, lo: nat)
    requires lo <= |s|
    requires forall i :: 0 <= i < lo ==> IsJsWhitespace(s[i])
    ensures AllWhitespace(s[..lo])
  {
  }

  lemma TailWhitespace(s: string, t: string, r: string)
    requires |t| <= |s| && t == s[|s| - |t|..]
    requires |r| <= |t|
    requires forall i :: |r| <= i < |t| ==> IsJsWhitespace(t[i])
    ensures AllWhitespace(s[|s| - |t| + |r|..])
  {
    var tail := s[|s| - |t| + |r|..];
    assert tail == t[|r|..];
  }

  lemma NoWhitespaceUntrimmed(s: string, t: string, r: string)
    requires |t| <= |s| && t == s[|s| - |t|..]
    requires |r| <= |t| && r == t[..|r|]
    requires forall i :: 0 <= i < |s| - |t| ==> IsJsWhitespace(s[i])
    requires forall i :: |r| <= i < |t| ==> IsJsWhitespace(t[i])
    ensures (forall i :: 0 <= i < |s| ==> !IsJsWhitespace(s[i])) ==> r == s
  {
    if |s| > |t| {
      assert IsJsWhitespace(s[0]);
    }
    if |r| < |t| {
      assert t[|r|] == s[|s| - |t| + |r|];
      assert IsJsWhitespace(s[|s| - |t| + |r|]);
    }
    assert |s| == |t| && |r| == |t| ==> r == s;
  }

  /** `createSlugFromName`. */
  function CreateSlugFromName(name: string): (slug: string)
    ensures InSlugAlphabet(slug) && NoDoubleHyphen(slug)
    ensures |slug| <= |name|
    ensures Alnums(slug) == Alnums(ToLower(name))
  {
    PipelineFacts(name);
    Trim(ReplaceRuns(ReplaceRuns(RemoveSpecial(ToLower(name)), Whitespace), Hyphen))
  }

  /** The letters and digits of `s`, in order. */
  function Alnums(s: string): string
    decreases |s|
  {
    if s == [] then []
    else if IsLowerAlnum(s[0]) then [s[0]] + Alnums(s[1..])
    else Alnums(s[1..])
  }

  /** `s` has no two hyphens in a row. */
  predicate NoDoubleHyphen(s: string)
  {
    forall i :: 0 <= i < |s| - 1 ==> !(s[i] == '-' && s[i + 1] == '-')
  }

  /** `s` is made of lower-case letters, digits and hyphens only. */
  predicate InSlugAlphabet(s: string)
  {
    forall i :: 0 <= i < |s| ==> IsLowerAlnum(s[i]) || s[i] == '-'
  }

  // ---------------------------------------------------------------------------
  // Each stage on its own

  /** Lowercasing leaves a string without upper-case letters as it is. */
  lemma ToLowerIdentity(s: string)
    requires forall i :: 0 <= i < |s| ==> !('A' <= s[i] <= 'Z')
    ensures ToLower(s) == s
  {
  }

  /** Removing special characters leaves a string of kept characters as it is. */
  lemma {:induction false} RemoveSpecialIdentity(s: string)
    requires forall i :: 0 <= i < |s| ==> IsKept(s[i])
    ensures RemoveSpecial(s) == s
    decreases |s|
  {
    if s != [] {
      RemoveSpecialIdentity(s[1..]);
    }
  }

  /**
   * The removal works piece by piece: on a concatenation it is the
   * concatenation of the removals. With `RemoveSpecialChar` this fixes the
   * result, and the kept characters stay in their order.
   */
  lemma {:induction false} RemoveSpecialAppend(a: string, b: string)
    ensures RemoveSpecial(a + b) == RemoveSpecial(a) + RemoveSpecial(b)
    decreases |a|
  {
    if a == [] {
      Unit(b);
      Unit(RemoveSpecial(b));
    } else {
      var c, rest := a[0], a[1..];
      var k := if IsKept(c) then [c] else [];
      assert a == [c] + rest;
      calc {
        RemoveSpecial(a + b);
        { Regroup([c], rest, b); }
        RemoveSpecial([c] + (rest + b));
        { RemoveSpecialCons(c, rest + b); }
        k + RemoveSpecial(rest + b);
        { RemoveSpecialAppend(rest, b); }
        k + (RemoveSpecial(rest) + RemoveSpecial(b));
        { Regroup(k, RemoveSpecial(rest), RemoveSpecial(b)); }
        (k + RemoveSpecial(rest)) + RemoveSpecial(b);
        { RemoveSpecialCons(c, rest); }
        RemoveSpecial(a) + RemoveSpecial(b);
      }
    }
  }

  /** One step of the removal: the first character is kept or dropped on its own. */
  lemma RemoveSpecialCons(c: char, t: string)
    ensures RemoveSpecial([c] + t) == (if IsKept(c) then [c] else []) + RemoveSpecial(t)
  {
    var x := [c] + t;
    assert x[0] == c && x[1..] == t;
    if !IsKept(c) {
      Unit(RemoveSpecial(t));
    }
  }

  /** A single character is kept exactly when it is in `[a-z0-9\s-]`. */
  lemma RemoveSpecialChar(c: char)
    ensures RemoveSpecial([c]) == if IsKept(c) then [c] else []
  {
    RemoveSpecialCons(c, []);
    Unit([c]);
  }

  /** Removing special characters keeps every letter and digit, in order. */
  lemma {:induction false} RemoveSpecialAlnums(s: string)
    ensures Alnums(RemoveSpecial(s)) == Alnums(s)
    decreases |s|
  {
    if s != [] {
      RemoveSpecialAlnums(s[1..]);
    }
  }

  /** Every character of the result other than the hyphen comes from the input. */
  lemma {:induction false} ReplaceRunsChars(s: string, kind: RunKind)
    ensures forall i :: 0 <= i < |ReplaceRuns(s, kind)| ==> ReplaceRuns(s, kind)[i] == '-' || ReplaceRuns(s, kind)[i] in s
    decreases |s|
  {
    if s != [] {
      if InRun(kind, s[0]) {
        ReplaceRunsChars(SkipRun(s, kind), kind);
      } else {
        ReplaceRunsChars(s[1..], kind);
      }
    }
  }

  /** Replacing runs keeps every letter and digit, in order. */
  lemma {:induction false} ReplaceRunsAlnums(s: string, kind: RunKind)
    ensures Alnums(ReplaceRuns(s, kind)) == Alnums(s)
    decreases |s|
  {
    if s != [] {
      if InRun(kind, s[0]) {
        var rest := SkipRun(s, kind);
        ReplaceRunsAlnums(rest, kind);
        SkippedRunHasNoAlnums(s, kind);
      } else {
        ReplaceRunsAlnums(s[1..], kind);
      }
    }
  }

  /** The run skipped at the front holds no letter or digit. */
  lemma {:induction false} SkippedRunHasNoAlnums(s: string, kind: RunKind)
    ensures Alnums(SkipRun(s, kind)) == Alnums(s)
    decreases |s|
  {
    if s != [] && InRun(kind, s[0]) {
      SkippedRunHasNoAlnums(s[1..], kind);
    }
  }

  /** A string with no character of the run kind is left as it is. */
  lemma {:induction false} ReplaceRunsIdentity(s: string, kind: RunKind)
    requires forall i :: 0 <= i < |s| ==> !InRun(kind, s[i])
    ensures ReplaceRuns(s, kind) == s
    decreases |s|
  {
    if s != [] {
      ReplaceRunsIdentity(s[1..], kind);
    }
  }

  /**
   * A run between two characters outside the run kind becomes exactly one
   * hyphen, and the text on either side is treated on its own.
   */
  lemma {:induction false} ReplaceRunsAround(a: string, run: string, b: string, kind: RunKind)
    requires run != [] && forall i :: 0 <= i < |run| ==> InRun(kind, run[i])
    requires a == [] || !InRun(kind, a[|a| - 1])
    requires b == [] || !InRun(kind, b[0])
    ensures ReplaceRuns(a + run + b, kind) == ReplaceRuns(a, kind) + "-" + ReplaceRuns(b, kind)
    decreases |a|, 1
  {
    if a == [] {
      AroundEmptyFront(a, run, b, kind);
    } else if InRun(kind, a[0]) {
      AroundAfterRun(a, run, b, kind);
    } else {
      AroundAfterChar(a, run, b, kind);
    }
  }

  /** The step of `ReplaceRunsAround` for a run at the very start. */
  lemma AroundEmptyFront(a: string, run: string, b: string, kind: RunKind)
    requires a == [] && run != [] && forall i :: 0 <= i < |run| ==> InRun(kind, run[i])
    requires b == [] || !InRun(kind, b[0])
    ensures ReplaceRuns(a + run + b, kind) == ReplaceRuns(a, kind) + "-" + ReplaceRuns(b, kind)
  {
    RunThenRest(run, b, kind);
    Unit(run);
    Unit("-");
  }

  /** The step of `ReplaceRunsAround` for text that starts with a run of its own. */
  lemma {:induction false} AroundAfterRun(a: string, run: string, b: string, kind: RunKind)
    requires run != [] && forall i :: 0 <= i < |run| ==> InRun(kind, run[i])
    requires a != [] && InRun(kind, a[0]) && !InRun(kind, a[|a| - 1])
    requires b == [] || !InRun(kind, b[0])
    ensures ReplaceRuns(a + run + b, kind) == ReplaceRuns(a, kind) + "-" + ReplaceRuns(b, kind)
    decreases |a|, 0
  {
    var rest := SkipRun(a, kind);
    SkipRunAppend(a, run + b, kind);
    assert rest[|rest| - 1] == a[|a| - 1];
    ReplaceRunsAround(rest, run, b, kind);
    AroundRunFirst(a, run + b, kind);
    var hy, y := ReplaceRuns(rest, kind), ReplaceRuns(b, kind);
    calc {
      ReplaceRuns(a + run + b, kind);
      { Regroup(a, run, b); }
      "-" + ReplaceRuns(rest + (run + b), kind);
      { Regroup(rest, run, b); }
      "-" + (hy + "-" + y);
      { Regroup("-", hy, "-" + y); Regroup(hy, "-", y); Regroup("-" + hy, "-", y); }
      ("-" + hy) + "-" + y;
    }
  }

  /** The step of `ReplaceRunsAround` for text that starts outside the run kind. */
  lemma {:induction false} AroundAfterChar(a: string, run: string, b: string, kind: RunKind)
    requires run != [] && forall i :: 0 <= i < |run| ==> InRun(kind, run[i])
    requires a != [] && !InRun(kind, a[0]) && !InRun(kind, a[|a| - 1])
    requires b == [] || !InRun(kind, b[0])
    ensures ReplaceRuns(a + run + b, kind) == ReplaceRuns(a, kind) + "-" + ReplaceRuns(b, kind)
    decreases |a|, 0
  {
    var rest := a[1..];
    assert |a| > 1 ==> rest[|rest| - 1] == a[|a| - 1];
    ReplaceRunsAround(rest, run, b, kind);
    AroundCharFirst(a, run + b, kind);
    var hy, y := ReplaceRuns(rest, kind), ReplaceRuns(b, kind);
    calc {
      ReplaceRuns(a + run + b, kind);
      { Regroup(a, run, b); }
      [a[0]] + ReplaceRuns(rest + (run + b), kind);
      { Regroup(rest, run, b); }
      [a[0]] + (hy + "-" + y);
      { Regroup([a[0]], hy, "-" + y); Regroup(hy, "-", y); Regroup([a[0]] + hy, "-", y); }
      ([a[0]] + hy) + "-" + y;
    }
  }

  lemma Regroup(x: string, y: string, z: string)
    ensures x + y + z == x + (y + z)
  {
  }

  lemma AroundRunFirst(a: string, t: string, kind: RunKind)
    requires a != [] && InRun(kind, a[0]) && !InRun(kind, a[|a| - 1])
    ensures ReplaceRuns(a + t, kind) == "-" + ReplaceRuns(SkipRun(a, kind) + t, kind)
    ensures ReplaceRuns(a, kind) == "-" + ReplaceRuns(SkipRun(a, kind), kind)
  {
    SkipRunAppend(a, t, kind);
    assert (a + t)[0] == a[0];
  }

  lemma AroundCharFirst(a: string, t: string, kind: RunKind)
    requires a != [] && !InRun(kind, a[0])
    ensures ReplaceRuns(a + t, kind) == [a[0]] + ReplaceRuns(a[1..] + t, kind)
    ensures ReplaceRuns(a, kind) == [a[0]] + ReplaceRuns(a[1..], kind)
  {
    assert (a + t)[0] == a[0];
    assert (a + t)[1..] == a[1..] + t;
  }

  /** A run at the front followed by text outside the run kind gives one hyphen and that text's replacement. */
  lemma RunThenRest(run: string, b: string, kind: RunKind)
    requires run != [] && forall i :: 0 <= i < |run| ==> InRun(kind, run[i])
    requires b == [] || !InRun(kind, b[0])
    ensures ReplaceRuns(run + b, kind) == "-" + ReplaceRuns(b, kind)
  {
    var x := run + b;
    assert x[0] == run[0];
    SkipRunPast(run, b, kind);
  }

  /** Skipping a whole run lands on what follows it. */
  lemma {:induction false} SkipRunPast(run: string, b: string, kind: RunKind)
    requires forall i :: 0 <= i < |run| ==> InRun(kind, run[i])
    requires b == [] || !InRun(kind, b[0])
    ensures SkipRun(run + b, kind) == b
    decreases |run|
  {
    if run == [] {
      assert run + b == b;
    } else {
      assert (run + b)[1..] == run[1..] + b;
      SkipRunPast(run[1..], b, kind);
    }
  }

  /** A run that ends inside `a` is skipped the same way whatever follows `a`. */
  lemma SkipRunAppend(a: string, t: string, kind: RunKind)
    requires a != [] && !InRun(kind, a[|a| - 1])
    ensures SkipRun(a + t, kind) == SkipRun(a, kind) + t
    ensures SkipRun(a, kind) != []
    ensures InRun(kind, a[0]) ==> |SkipRun(a, kind)| < |a|
  {
    var rest := SkipRun(a, kind);
    var k := |a| - |rest|;
    assert k < |a|;
    assert rest[0] == a[k];
    var at := a + t;
    forall i | 0 <= i <= k
      ensures at[i] == a[i]
    {
    }
    SkipRunAt(at, k, kind);
    DropAppend(a, t, k);
  }

  lemma DropAppend(a: string, t: string, k: nat)
    requires k <= |a|
    ensures (a + t)[k..] == a[k..] + t
  {
  }

  /** The run skipped is the one that ends at the first character outside it. */
  lemma {:induction false} SkipRunAt(s: string, k: nat, kind: RunKind)
    requires k < |s| && !InRun(kind, s[k])
    requires forall i :: 0 <= i < k ==> InRun(kind, s[i])
    ensures SkipRun(s, kind) == s[k..]
    decreases k
  {
    if k > 0 {
      SkipRunAt(s[1..], k - 1, kind);
      assert s[1..][k - 1..] == s[k..];
    }
  }

  /** Collapsing hyphens leaves a string without a double hyphen as it is. */
  lemma {:induction false} CollapseHyphensIdentity(s: string)
    requires NoDoubleHyphen(s)
    ensures ReplaceRuns(s, Hyphen) == s
    decreases |s|
  {
    if s != [] {
      CollapseHyphensIdentity(s[1..]);
      if s[0] == '-' {
        assert SkipRun(s, Hyphen) == s[1..];
      }
    }
  }

  /** After collapsing hyphens no two hyphens are adjacent. */
  lemma {:induction false} CollapseHyphensNoDouble(s: string)
    ensures NoDoubleHyphen(ReplaceRuns(s, Hyphen))
    decreases |s|
  {
    if s != [] {
      if s[0] == '-' {
        var rest := SkipRun(s, Hyphen);
        CollapseHyphensNoDouble(rest);
        if rest != [] {
          assert ReplaceRuns(rest, Hyphen)[0] == rest[0];
        }
      } else {
        CollapseHyphensNoDouble(s[1..]);
      }
    }
  }

  // ---------------------------------------------------------------------------
  // The whole pipeline

  /**
   * The intermediate strings of the pipeline: lowered, cleaned, whitespace
   * runs hyphenated, hyphen runs collapsed; the final trim changes nothing.
   */
  lemma {:induction false} PipelineFacts(name: string)
    ensures var collapsed := ReplaceRuns(ReplaceRuns(RemoveSpecial(ToLower(name)), Whitespace), Hyphen);
      && Trim(collapsed) == collapsed
      && InSlugAlphabet(collapsed)
      && NoDoubleHyphen(collapsed)
      && |collapsed| <= |name|
      && Alnums(collapsed) == Alnums(ToLower(name))
  {
    var cleaned := RemoveSpecial(ToLower(name));
    var hyphenated := ReplaceRuns(cleaned, Whitespace);
    var collapsed := ReplaceRuns(hyphenated, Hyphen);
    ReplaceRunsChars(cleaned, Whitespace);
    ReplaceRunsChars(hyphenated, Hyphen);
    assert forall i :: 0 <= i < |hyphenated| ==> IsLowerAlnum(hyphenated[i]) || hyphenated[i] == '-';
    assert InSlugAlphabet(collapsed);
    CollapseHyphensNoDouble(hyphenated);
    RemoveSpecialAlnums(ToLower(name));
    ReplaceRunsAlnums(cleaned, Whitespace);
    ReplaceRunsAlnums(hyphenated, Hyphen);
  }

  /** Deriving a slug from a slug gives the same slug. */
  lemma SlugIdempotent(name: string)
    ensures CreateSlugFromName(CreateSlugFromName(name)) == CreateSlugFromName(name)
  {
    SlugAlphabetIsFixed(CreateSlugFromName(name));
  }

  /** Every stage of the pipeline leaves a slug-alphabet string without a double hyphen as it is. */
  lemma SlugAlphabetIsFixed(s: string)
    requires InSlugAlphabet(s) && NoDoubleHyphen(s)
    ensures CreateSlugFromName(s) == s
  {
    forall i | 0 <= i < |s|
      ensures !('A' <= s[i] <= 'Z') && IsKept(s[i]) && !IsJsWhitespace(s[i])
    {
    }
    ToLowerIdentity(s);
    RemoveSpecialIdentity(s);
    ReplaceRunsIdentity(s, Whitespace);
    CollapseAndTrimFixed(s);
  }

  lemma CollapseAndTrimFixed(s: string)
    requires InSlugAlphabet(s) && NoDoubleHyphen(s)
    ensures Trim(ReplaceRuns(s, Hyphen)) == s
  {
    CollapseHyphensIdentity(s);
    forall i | 0 <= i < |s|
      ensures !IsJsWhitespace(s[i])
    {
    }
  }

  /** A name without letters or digits gives the empty slug or a lone hyphen. */
  lemma SlugWithoutAlnums(name: string)
    requires Alnums(ToLower(name)) == []
    ensures CreateSlugFromName(name) in {"", "-"}
  {
    HyphensOnly(CreateSlugFromName(name));
  }

  /** A slug-alphabet string without letters or digits and without a double hyphen is `""` or `"-"`. */
  lemma HyphensOnly(s: string)
    requires InSlugAlphabet(s) && NoDoubleHyphen(s)
    requires Alnums(s) == []
    ensures s in {"", "-"}
  {
    NoAlnumsMeansNone(s);
    forall i | 0 <= i < |s|
      ensures s[i] == '-'
    {
    }
    assert |s| <= 1;
    if |s| == 1 {
      assert s == [s[0]];
    }
  }

  lemma {:induction false} NoAlnumsMeansNone(s: string)
    requires Alnums(s) == []
    ensures forall i :: 0 <= i < |s| ==> !IsLowerAlnum(s[i])
    decreases |s|
  {
    if s != [] {
      NoAlnumsMeansNone(s[1..]);
    }
  }

  /** Two words separated by a space are joined by a hyphen: `"acme corp"` gives `"acme-corp"`. */
  lemma SlugOfTwoWords(w1: string, w2: string)
    requires forall i :: 0 <= i < |w1| ==> IsLowerAlnum(w1[i])
    requires forall i :: 0 <= i < |w2| ==> IsLowerAlnum(w2[i])
    ensures CreateSlugFromName(w1 + " " + w2) == w1 + "-" + w2
  {
    var name := w1 + " " + w2;
    calc {
      CreateSlugFromName(name);
      Trim(ReplaceRuns(ReplaceRuns(RemoveSpecial(ToLower(name)), Whitespace), Hyphen));
      { SpacedWordsShape(w1, w2); CleanStaysClean(name); }
      Trim(ReplaceRuns(ReplaceRuns(name, Whitespace), Hyphen));
      { HyphenateBetween(w1, w2); }
      Trim(ReplaceRuns(w1 + "-" + w2, Hyphen));
      { HyphenatedWordsShape(w1, w2); CollapseAndTrimFixed(w1 + "-" + w2); }
      w1 + "-" + w2;
    }
  }

  lemma SpacedWordsShape(w1: string, w2: string)
    requires forall i :: 0 <= i < |w1| ==> IsLowerAlnum(w1[i])
    requires forall i :: 0 <= i < |w2| ==> IsLowerAlnum(w2[i])
    ensures forall i :: 0 <= i < |w1 + " " + w2| ==> (w1 + " " + w2)[i] == ' ' || IsLowerAlnum((w1 + " " + w2)[i])
  {
    var name := w1 + " " + w2;
    forall i | 0 <= i < |name|
      ensures name[i] == ' ' || IsLowerAlnum(name[i])
    {
      if i < |w1| {
        assert name[i] == w1[i];
      } else if i > |w1| {
        assert name[i] == w2[i - |w1| - 1];
      }
    }
  }

  /** The space between two words becomes a hyphen. */
  lemma HyphenateBetween(w1: string, w2: string)
    requires forall i :: 0 <= i < |w1| ==> IsLowerAlnum(w1[i])
    requires forall i :: 0 <= i < |w2| ==> IsLowerAlnum(w2[i])
    ensures ReplaceRuns(w1 + " " + w2, Whitespace) == w1 + "-" + w2
  {
    AlnumsAreNotWhitespace(w1);
    AlnumsAreNotWhitespace(w2);
    ReplaceRunsAround(w1, " ", w2, Whitespace);
    ReplaceRunsIdentity(w1, Whitespace);
    ReplaceRunsIdentity(w2, Whitespace);
  }

  lemma AlnumsAreNotWhitespace(w: string)
    requires forall i :: 0 <= i < |w| ==> IsLowerAlnum(w[i])
    ensures forall i :: 0 <= i < |w| ==> !InRun(Whitespace, w[i])
  {
    forall i | 0 <= i < |w|
      ensures !IsJsWhitespace(w[i])
    {
      assert IsLowerAlnum(w[i]);
    }
  }

  lemma HyphenatedWordsShape(w1: string, w2: string)
    requires forall i :: 0 <= i < |w1| ==> IsLowerAlnum(w1[i])
    requires forall i :: 0 <= i < |w2| ==> IsLowerAlnum(w2[i])
    ensures InSlugAlphabet(w1 + "-" + w2) && NoDoubleHyphen(w1 + "-" + w2)
  {
    var slug := w1 + "-" + w2;
    forall i | 0 <= i < |slug|
      ensures slug[i] == '-' || IsLowerAlnum(slug[i])
      ensures slug[i] == '-' ==> i == |w1|
    {
      if i < |w1| {
        assert slug[i] == w1[i];
      } else if i > |w1| {
        assert slug[i] == w2[i - |w1| - 1];
      }
    }
  }

  /**
   * Surrounding spaces turn into hyphens that the final trim does not remove:
   * `" acme "` gives `"-acme-"`.
   */
  lemma SlugKeepsOuterHyphens(w: string)
    requires w != [] && forall i :: 0 <= i < |w| ==> IsLowerAlnum(w[i])
    ensures CreateSlugFromName(" " + w + " ") == "-" + w + "-"
  {
    var name := " " + w + " ";
    calc {
      CreateSlugFromName(name);
      Trim(ReplaceRuns(ReplaceRuns(RemoveSpecial(ToLower(name)), Whitespace), Hyphen));
      { SpacedWordShape(w); CleanStaysClean(name); }
      Trim(ReplaceRuns(ReplaceRuns(name, Whitespace), Hyphen));
      { HyphenateSurrounded(w); }
      Trim(ReplaceRuns("-" + w + "-", Hyphen));
      { HyphenatedWordShape(w); CollapseAndTrimFixed("-" + w + "-"); }
      "-" + w + "-";
    }
  }

  lemma SpacedWordShape(w: string)
    requires forall i :: 0 <= i < |w| ==> IsLowerAlnum(w[i])
    ensures forall i :: 0 <= i < |" " + w + " "| ==> (" " + w + " ")[i] == ' ' || IsLowerAlnum((" " + w + " ")[i])
  {
    var name := " " + w + " ";
    forall i | 0 <= i < |name|
      ensures name[i] == ' ' || IsLowerAlnum(name[i])
    {
      if 0 < i < |name| - 1 {
        assert name[i] == w[i - 1];
      }
    }
  }

  lemma CleanStaysClean(s: string)
    requires forall i :: 0 <= i < |s| ==> s[i] == ' ' || IsLowerAlnum(s[i])
    ensures RemoveSpecial(ToLower(s)) == s
  {
    ToLowerIdentity(s);
    RemoveSpecialIdentity(s);
  }

  lemma HyphenatedWordShape(w: string)
    requires w != [] && forall i :: 0 <= i < |w| ==> IsLowerAlnum(w[i])
    ensures InSlugAlphabet("-" + w + "-") && NoDoubleHyphen("-" + w + "-")
  {
    var slug := "-" + w + "-";
    forall i | 0 <= i < |slug|
      ensures slug[i] == '-' || IsLowerAlnum(slug[i])
      ensures slug[i] == '-' ==> i == 0 || i == |slug| - 1
    {
      if 0 < i < |slug| - 1 {
        assert slug[i] == w[i - 1];
      }
    }
  }

  /** A word between two single spaces becomes the word between two hyphens. */
  lemma HyphenateSurrounded(w: string)
    requires w != [] && forall i :: 0 <= i < |w| ==> !IsJsWhitespace(w[i])
    ensures ReplaceRuns(" " + w + " ", Whitespace) == "-" + w + "-"
  {
    calc {
      ReplaceRuns(" " + w + " ", Whitespace);
      { Regroup(" ", w, " "); }
      ReplaceRuns(" " + (w + " "), Whitespace);
      { LeadingSpace(w); }
      "-" + ReplaceRuns(w + " ", Whitespace);
      { HyphenateTrailingSpace(w); }
      "-" + (w + "-");
      { Regroup("-", w, "-"); }
      "-" + w + "-";
    }
  }

  /** One leading space before a word becomes one hyphen. */
  lemma LeadingSpace(w: string)
    requires w != [] && !IsJsWhitespace(w[0])
    ensures ReplaceRuns(" " + (w + " "), Whitespace) == "-" + ReplaceRuns(w + " ", Whitespace)
  {
    assert (w + " ")[0] == w[0];
    RunThenRest(" ", w + " ", Whitespace);
  }

  /** A word followed by one space becomes the word followed by one hyphen. */
  lemma HyphenateTrailingSpace(w: string)
    requires forall i :: 0 <= i < |w| ==> !IsJsWhitespace(w[i])
    ensures ReplaceRuns(w + " ", Whitespace) == w + "-"
  {
    var e: string := [];
    Unit(w + " ");
    ReplaceRunsAround(w, " ", e, Whitespace);
    ReplaceRunsIdentity(w, Whitespace);
    Unit(w + "-");
  }

  lemma Unit(x: string)
    ensures [] + x == x && x + [] == x
  {
  }

  // ---------------------------------------------------------------------------
  // The slug with its outer hyphens trimmed, as the final trim evidently meant

  function DropLeadingHyphens(s: string): (r: string)
    ensures |r| <= |s| && r == s[|s| - |r|..]
    ensures r == [] || r[0] != '-'
    decreases |s|
  {
    if s != [] && s[0] == '-' then DropLeadingHyphens(s[1..]) else s
  }

  function DropTrailingHyphens(s: string): (r: string)
    ensures |r| <= |s| && r == s[..|r|]
    ensures r == [] || r[|r| - 1] != '-'
    decreases |s|
  {
    if s != [] && s[|s| - 1] == '-' then DropTrailingHyphens(s[..|s| - 1]) else s
  }

  /** `createSlugFromName` with hyphens, rather than whitespace, trimmed at both ends. */
  function CreateSlugFromNameTrimmed(name: string): string
  {
    DropTrailingHyphens(DropLeadingHyphens(CreateSlugFromName(name)))
  }

  /** A slug that is a well-formed host label: letters, digits and single inner hyphens. */
  predicate IsLabelShaped(s: string)
  {
    && InSlugAlphabet(s)
    && NoDoubleHyphen(s)
    && (s == [] || (s[0] != '-' && s[|s| - 1] != '-'))
  }

  /** A piece cut out of a string keeps its alphabet and its lack of double hyphens. */
  lemma InfixKeepsShape(s: string, lo: nat, hi: nat)
    requires lo <= hi <= |s|
    requires InSlugAlphabet(s) && NoDoubleHyphen(s)
    ensures InSlugAlphabet(s[lo..hi]) && NoDoubleHyphen(s[lo..hi])
  {
    var t := s[lo..hi];
    assert forall i :: 0 <= i < |t| ==> t[i] == s[lo + i];
  }

  lemma {:induction false} HyphensAreNotAlnums(s: string, lo: nat, hi: nat)
    requires lo <= hi <= |s|
    requires forall i :: 0 <= i < lo ==> s[i] == '-'
    requires forall i :: hi <= i < |s| ==> s[i] == '-'
    ensures Alnums(s[lo..hi]) == Alnums(s)
    decreases |s|
  {
    if lo > 0 {
      HyphensAreNotAlnums(s[1..], lo - 1, hi - 1);
      assert s[1..][lo - 1..hi - 1] == s[lo..hi];
    } else if hi < |s| {
      var init := s[..|s| - 1];
      assert s[|s| - 1] == '-';
      HyphensAreNotAlnums(init, lo, hi);
      assert init[lo..hi] == s[lo..hi];
      AlnumsDropLast(s);
      assert Alnums(init) == Alnums(s);
    } else {
      assert s[lo..hi] == s;
    }
  }

  lemma {:induction false} AlnumsDropLast(s: string)
    requires s != [] && !IsLowerAlnum(s[|s| - 1])
    ensures Alnums(s[..|s| - 1]) == Alnums(s)
    decreases |s|
  {
    if |s| > 1 {
      AlnumsDropLast(s[1..]);
      assert s[1..][..|s| - 2] == s[..|s| - 1][1..];
    }
  }

  /** Trimming the outer hyphens of a slug-alphabet string leaves a label-shaped string with the same letters and digits. */
  lemma TrimHyphensShape(s: string)
    requires InSlugAlphabet(s) && NoDoubleHyphen(s)
    ensures IsLabelShaped(DropTrailingHyphens(DropLeadingHyphens(s)))
    ensures Alnums(DropTrailingHyphens(DropLeadingHyphens(s))) == Alnums(s)
  {
    var front := DropLeadingHyphens(s);
    var lo := |s| - |front|;
    var trimmed := DropTrailingHyphens(front);
    var hi := lo + |trimmed|;
    assert trimmed == s[lo..hi];
    InfixKeepsShape(s, lo, hi);
    DroppedAreHyphens(s);
    HyphensAreNotAlnums(s, lo, hi);
  }

  /** The trimmed slug is label-shaped and keeps every letter and digit of the name. */
  lemma TrimmedSlugShape(name: string)
    ensures IsLabelShaped(CreateSlugFromNameTrimmed(name))
    ensures Alnums(CreateSlugFromNameTrimmed(name)) == Alnums(ToLower(name))
  {
    TrimHyphensShape(CreateSlugFromName(name));
  }

  lemma {:induction false} DroppedAreHyphens(s: string)
    ensures var lo := |s| - |DropLeadingHyphens(s)|;
      && (forall i :: 0 <= i < lo ==> s[i] == '-')
      && (forall i :: lo + |DropTrailingHyphens(DropLeadingHyphens(s))| <= i < |s| ==> s[i] == '-')
  {
    LeadingDropped(s);
    var front := DropLeadingHyphens(s);
    TrailingDropped(front);
    var lo := |s| - |front|;
    forall i | lo + |DropTrailingHyphens(front)| <= i < |s|
      ensures s[i] == '-'
    {
      assert front[i - lo] == s[i];
    }
  }

  lemma {:induction false} LeadingDropped(s: string)
    ensures forall i :: 0 <= i < |s| - |DropLeadingHyphens(s)| ==> s[i] == '-'
    decreases |s|
  {
    if s != [] && s[0] == '-' {
      LeadingDropped(s[1..]);
    }
  }

  lemma {:induction false} TrailingDropped(s: string)
    ensures forall i :: |DropTrailingHyphens(s)| <= i < |s| ==> s[i] == '-'
    decreases |s|
  {
    if s != [] && s[|s| - 1] == '-' {
      TrailingDropped(s[..|s| - 1]);
    }
  }

  /** Deriving the trimmed slug from a trimmed slug gives the same slug. */
  lemma TrimmedSlugIdempotent(name: string)
    ensures CreateSlugFromNameTrimmed(CreateSlugFromNameTrimmed(name)) == CreateSlugFromNameTrimmed(name)
  {
    var trimmed := CreateSlugFromNameTrimmed(name);
    TrimmedSlugShape(name);
    SlugAlphabetIsFixed(trimmed);
    assert DropLeadingHyphens(trimmed) == trimmed;
    assert DropTrailingHyphens(trimmed) == trimmed;
  }

  /** With hyphens trimmed, the name whose slug kept its outer hyphens gets the bare word: `" acme "` gives `"acme"`. */
  lemma TrimmedSlugOfSpacedName(w: string)
    requires w != [] && forall i :: 0 <= i < |w| ==> IsLowerAlnum(w[i])
    ensures CreateSlugFromNameTrimmed(" " + w + " ") == w
  {
    SlugKeepsOuterHyphens(w);
    TrimOuterHyphens(w);
  }

  lemma TrimOuterHyphens(w: string)
    requires w != [] && w[0] != '-' && w[|w| - 1] != '-'
    ensures DropTrailingHyphens(DropLeadingHyphens("-" + w + "-")) == w
  {
    DropOneLeading(w);
    DropOneTrailing(w);
  }

  lemma DropOneLeading(w: string)
    requires w != [] && w[0] != '-'
    ensures DropLeadingHyphens("-" + w + "-") == w + "-"
  {
    var x := "-" + w + "-";
    assert x[1..] == w + "-";
    assert (w + "-")[0] == w[0];
  }

  lemma DropOneTrailing(w: string)
    requires w != [] && w[|w| - 1] != '-'
    ensures DropTrailingHyphens(w + "-") == w
  {
    var x := w + "-";
    assert x[..|x| - 1] == w;
  }
}
