/** `stripAnsiCodes`: deletes every leftmost, non-overlapping match of the
    regular expression `\x1b\[[0-9;]*m`, the Select Graphic Rendition
    control sequences of ECMA-48 (section 8.3.117), before text is copied to
    the clipboard. */
module Ansi {

  const ESC: char := '\U{1B}'

  /** A character the parameter part `[0-9;]` of the pattern accepts. */
  predicate IsParam(c: char)
  {
    '0' <= c <= '9' || c == ';'
  }

  /** `t` is, as a whole, one match of `\x1b\[[0-9;]*m`. */
  predicate IsSgr(t: string)
  {
    && |t| >= 3
    && t[0] == ESC && t[1] == '[' && t[|t| - 1] == 'm'
    && forall k :: 2 <= k < |t| - 1 ==> IsParam(t[k])
  }

  /** Some slice of `s` is a match of the pattern. */
  predicate ContainsSgr(s: string)
  {
    exists i, j :: 0 <= i <= j <= |s| && IsSgr(s[i..j])
  }

  /** The length of the run of parameter characters at the front of `s`. */
  function ParamRun(s: string): (n: nat)
    ensures n <= |s|
    ensures forall k :: 0 <= k < n ==> IsParam(s[k])
    ensures n < |s| ==> !IsParam(s[n])
  {
    if s != [] && IsParam(s[0]) then 1 + ParamRun(s[1..]) else 0
  }

  /** The length of the match that starts at the front of `s`, or 0 when the
      pattern does not match there. */
  function SgrLength(s: string): (n: nat)
    ensures n <= |s|
    ensures n > 0 ==> IsSgr(s[..n])
  {
    if |s| >= 2 && s[0] == ESC && s[1] == '[' then
      var p := 2 + ParamRun(s[2..]);
      if p < |s| && s[p] == 'm' then p + 1 else 0
    else 0
  }

  /** A match at the front of `s` is unique: since `m` is not a parameter
      character, no prefix other than the one `SgrLength` finds is a match. */
  lemma SgrMatchUnique(s: string, n: nat)
    requires n <= |s| && IsSgr(s[..n])
    ensures SgrLength(s) == n
  {
    var t := s[..n];
    assert s[0] == t[0] && s[1] == t[1];
    var r := ParamRun(s[2..]);
    assert s[2 + r] == t[n - 1];
  }

  /** The regular-expression replacement, as a left-to-right scan: at each
      position either a match starts, and is deleted, or the character is
      kept and the scan moves on by one. */
  function StripAnsiCodes(s: string): (r: string)
    ensures |r| <= |s|
    decreases |s|
  {
    if s == [] then []
    else
      var n := SgrLength(s);
      if n > 0 then StripAnsiCodes(s[n..]) else [s[0]] + StripAnsiCodes(s[1..])
  }

  /** A match at the front is deleted and the rest is scanned on its own. */
  lemma StripDropsLeadingSgr(t: string, s: string)
    requires IsSgr(t)
    ensures StripAnsiCodes(t + s) == StripAnsiCodes(s)
  {
    assert (t + s)[..|t|] == t;
    SgrMatchUnique(t + s, |t|);
    assert (t + s)[|t|..] == s;
  }

  lemma MatchAtFront(s: string)
    ensures SgrLength(s) > 0 ==> ContainsSgr(s)
  {
    if SgrLength(s) > 0 {
      assert IsSgr(s[0..SgrLength(s)]);
    }
  }

  lemma SgrShift(s: string, i: nat, j: nat)
    requires 1 <= i <= j <= |s|
    ensures s[1..][i - 1..j - 1] == s[i..j]
  {
  }

  lemma ContainsSgrTail(s: string)
    requires s != [] && SgrLength(s) == 0
    ensures ContainsSgr(s) <==> ContainsSgr(s[1..])
  {
    if ContainsSgr(s) {
      var i, j :| 0 <= i <= j <= |s| && IsSgr(s[i..j]);
      if i == 0 {
        assert s[..j] == s[i..j];
        SgrMatchUnique(s, j);
        assert false;
      }
      SgrShift(s, i, j);
      assert IsSgr(s[1..][i - 1..j - 1]);
    }
    if ContainsSgr(s[1..]) {
      var i, j :| 0 <= i <= j <= |s[1..]| && IsSgr(s[1..][i..j]);
      SgrShift(s, i + 1, j + 1);
      assert IsSgr(s[i + 1..j + 1]);
    }
  }

  /** Some match is deleted whenever there is one. */
  lemma {:induction false} StripShortens(s: string)
    requires ContainsSgr(s)
    ensures |StripAnsiCodes(s)| < |s|
    decreases |s|
  {
    if SgrLength(s) == 0 {
      ContainsSgrTail(s);
      StripShortens(s[1..]);
    }
  }

  /** Text with no match anywhere comes back as it was. */
  lemma {:induction false} StripKeepsSgrFree(s: string)
    requires !ContainsSgr(s)
    ensures StripAnsiCodes(s) == s
    decreases |s|
  {
    if s != [] {
      MatchAtFront(s);
      ContainsSgrTail(s);
      StripKeepsSgrFree(s[1..]);
    }
  }

  /** The stripper changes its input exactly when the input holds a match. */
  lemma StripUnchangedIff(s: string)
    ensures StripAnsiCodes(s) == s <==> !ContainsSgr(s)
  {
    if ContainsSgr(s) {
      StripShortens(s);
    } else {
      StripKeepsSgrFree(s);
    }
  }

  /** Text without an escape character comes back as it was. */
  lemma StripWithoutEsc(s: string)
    requires ESC !in s
    ensures StripAnsiCodes(s) == s
  {
    StripUnchangedIff(s);
  }

  /** A character that can be part of a match. */
  predicate InSgrAlphabet(c: char)
  {
    c == ESC || c == '[' || IsParam(c) || c == 'm'
  }

  /** The characters of `s` that no match can contain, in order. */
  function Others(s: string): string
  {
    if s == [] then []
    else (if InSgrAlphabet(s[0]) then [] else [s[0]]) + Others(s[1..])
  }

  lemma {:induction false} OthersAppend(a: string, b: string)
    ensures Others(a + b) == Others(a) + Others(b)
  {
    if a == [] {
      assert a + b == b;
    } else {
      assert (a + b)[1..] == a[1..] + b;
      OthersAppend(a[1..], b);
    }
  }

  lemma {:induction false} OthersOfSgr(t: string)
    requires forall k :: 0 <= k < |t| ==> InSgrAlphabet(t[k])
    ensures Others(t) == []
  {
    if t != [] {
      OthersOfSgr(t[1..]);
    }
  }

  /** Stripping only deletes characters, and only characters of matches:
      every character outside the pattern's alphabet is kept, in order. */
  lemma {:induction false} StripKeepsOthers(s: string)
    ensures Others(StripAnsiCodes(s)) == Others(s)
    ensures multiset(StripAnsiCodes(s)) <= multiset(s)
    decreases |s|
  {
    if s != [] {
      var n := SgrLength(s);
      if n > 0 {
        var t := s[..n];
        assert s == t + s[n..];
        OthersAppend(t, s[n..]);
        OthersOfSgr(t);
        StripKeepsOthers(s[n..]);
      } else {
        assert s == [s[0]] + s[1..];
        OthersAppend([s[0]], s[1..]);
        OthersAppend([s[0]], StripAnsiCodes(s[1..]));
        StripKeepsOthers(s[1..]);
      }
    }
  }

  /** `r` is `s` with some whole matches deleted: read from the left, each
      character of `s` is either copied to `r` or part of a match that is
      dropped as a whole. */
  ghost predicate SgrDeletion(s: string, r: string)
    decreases |s|
  {
    if s == [] then r == []
    else
      || (exists n :: 3 <= n <= |s| && IsSgr(s[..n]) && SgrDeletion(s[n..], r))
      || (r != [] && r[0] == s[0] && SgrDeletion(s[1..], r[1..]))
  }

  /** The stripper deletes matches and nothing else: every character outside
      a deleted match is kept, in order. */
  lemma {:induction false} StripIsSgrDeletion(s: string)
    ensures SgrDeletion(s, StripAnsiCodes(s))
    decreases |s|
  {
    if s != [] {
      var n := SgrLength(s);
      if n > 0 {
        StripIsSgrDeletion(s[n..]);
        assert IsSgr(s[..n]);
      } else {
        var r := StripAnsiCodes(s);
        assert r == [s[0]] + StripAnsiCodes(s[1..]);
        assert r[1..] == StripAnsiCodes(s[1..]);
        StripIsSgrDeletion(s[1..]);
      }
    }
  }

  /** Past its first character, a match holds no escape character. */
  lemma NoEscInsideSgr(s: string, m: nat, k: nat)
    requires m <= |s| && IsSgr(s[..m]) && 1 <= k < m
    ensures s[k] != ESC
  {
    assert s[..m][k] == s[k];
  }

  /** A match starting inside `a` cannot reach into text that begins with
      an escape character, since that character is neither a parameter nor
      the final `m`. */
  lemma FrontMatchStaysIn(a: string, rest: string)
    requires a != [] && rest != [] && rest[0] == ESC
    ensures SgrLength(a + rest) == SgrLength(a)
  {
    var s := a + rest;
    var n := SgrLength(a);
    if n > 0 {
      assert s[..n] == a[..n];
      SgrMatchUnique(s, n);
    } else {
      var m := SgrLength(s);
      if m > 0 && m <= |a| {
        assert s[..m] == a[..m];
        SgrMatchUnique(a, m);
      } else if m > |a| {
        NoEscInsideSgr(s, m, |a|);
        assert false;
      }
    }
  }

  /** The scan's step at a match: the match is skipped. */
  lemma StripStepMatch(s: string)
    requires SgrLength(s) > 0
    ensures StripAnsiCodes(s) == StripAnsiCodes(s[SgrLength(s)..])
  {
  }

  /** The scan's step where no match starts: the character is kept. */
  lemma StripStepKeep(s: string)
    requires s != [] && SgrLength(s) == 0
    ensures StripAnsiCodes(s) == [s[0]] + StripAnsiCodes(s[1..])
  {
  }

  /** Stripping works across a boundary where an escape character begins:
      the two sides are stripped independently. */
  lemma {:induction false} StripBeforeEsc(a: string, rest: string)
    requires rest != [] && rest[0] == ESC
    ensures StripAnsiCodes(a + rest) == StripAnsiCodes(a) + StripAnsiCodes(rest)
    decreases |a|, 1
  {
    if a == [] {
      assert a + rest == rest;
    } else {
      FrontMatchStaysIn(a, rest);
      if SgrLength(a) > 0 {
        StripBeforeEscAtMatch(a, rest);
      } else {
        StripBeforeEscAtKeep(a, rest);
      }
    }
  }

  lemma {:induction false} StripBeforeEscAtMatch(a: string, rest: string)
    requires rest != [] && rest[0] == ESC
    requires a != [] && SgrLength(a) > 0 && SgrLength(a + rest) == SgrLength(a)
    ensures StripAnsiCodes(a + rest) == StripAnsiCodes(a) + StripAnsiCodes(rest)
    decreases |a|, 0
  {
    var s, n := a + rest, SgrLength(a);
    assert s[n..] == a[n..] + rest;
    StripBeforeEsc(a[n..], rest);
    StripStepMatch(s);
    StripStepMatch(a);
  }

  lemma {:induction false} StripBeforeEscAtKeep(a: string, rest: string)
    requires rest != [] && rest[0] == ESC
    requires a != [] && SgrLength(a) == 0 && SgrLength(a + rest) == 0
    ensures StripAnsiCodes(a + rest) == StripAnsiCodes(a) + StripAnsiCodes(rest)
    decreases |a|, 0
  {
    TailOfAppend(a, rest);
    StripBeforeEsc(a[1..], rest);
    StripStepKeep(a + rest);
    StripStepKeep(a);
    ConsAppend(a[0], StripAnsiCodes(a[1..]), StripAnsiCodes(rest));
  }

  lemma TailOfAppend(a: string, rest: string)
    requires a != []
    ensures (a + rest)[0] == a[0] && (a + rest)[1..] == a[1..] + rest
  {
  }

  lemma ConsAppend(c: char, p: string, q: string)
    ensures [c] + (p + q) == ([c] + p) + q
  {
  }

  /** Every match in the input is deleted: whatever comes before and after
      it, the match leaves nothing behind and the text on each side is
      stripped on its own. */
  lemma StripDeletesEveryMatch(a: string, t: string, b: string)
    requires IsSgr(t)
    ensures StripAnsiCodes(a + t + b) == StripAnsiCodes(a) + StripAnsiCodes(b)
  {
    assert a + t + b == a + (t + b);
    StripBeforeEsc(a, t + b);
    StripDropsLeadingSgr(t, b);
  }

  /** One pass is not idempotent: deleting a match can bring an escape
      character next to a `[` that follows it. */
  lemma StripIsNotIdempotent()
    ensures var s := [ESC, ESC, '[', 'm', '[', 'm'];
            StripAnsiCodes(s) == [ESC, '[', 'm'] && StripAnsiCodes(StripAnsiCodes(s)) == []
  {
    var s := [ESC, ESC, '[', 'm', '[', 'm'];
    assert SgrLength(s) == 0;
    assert s[1..] == [ESC, '['] + ['m'] + ['[', 'm'];
    assert IsSgr([ESC, '[', 'm']);
    StripDropsLeadingSgr([ESC, '[', 'm'], ['[', 'm']);
    assert [ESC, '[', 'm'] + ['[', 'm'] == s[1..];
    assert StripAnsiCodes(['[', 'm']) == ['[', 'm'];
    assert StripAnsiCodes([ESC, '[', 'm']) == [];
  }
}
