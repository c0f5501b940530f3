/** The functions of Go's `strings` package that the port monitor calls, over
    `seq<char>`: `Contains`, `ToLower` (ASCII letters only), `Split` with a
    one-character separator, and `Fields`. */
module Strings {

  /** `unicode.IsSpace`: the characters `strings.Fields` separates fields on. */
  predicate IsSpace(c: char)
  {
    || c == '\t' || c == '\n' || c == '\U{0B}' || c == '\U{0C}' || c == '\r' || c == ' '
    || c == '\U{85}' || c == '\U{A0}' || c == '\U{1680}'
    || ('\U{2000}' <= c <= '\U{200A}')
    || c == '\U{2028}' || c == '\U{2029}' || c == '\U{202F}' || c == '\U{205F}' || c == '\U{3000}'
  }

  predicate NoSpace(w: string)
  {
    forall k :: 0 <= k < |w| ==> !IsSpace(w[k])
  }

  // ---------------------------------------------------------------------------
  // Contains

  /** `sub` occurs in `s` starting at index `i`. */
  predicate OccursAt(s: string, sub: string, i: nat)
  {
    i + |sub| <= |s| && s[i..i + |sub|] == sub
  }

  lemma OccursAtTail(s: string, sub: string, i: nat)
    requires s != []
    ensures OccursAt(s[1..], sub, i) <==> OccursAt(s, sub, i + 1)
  {
    if i + |sub| <= |s[1..]| {
      assert s[1..][i..i + |sub|] == s[i + 1..i + 1 + |sub|];
    }
  }

  /** `strings.Contains(s, sub)`: `sub` occurs somewhere in `s`. */
  function Contains(s: string, sub: string): (r: bool)
    ensures r <==> exists i: nat :: OccursAt(s, sub, i)
    decreases |s|
  {
    if |sub| <= |s| && s[..|sub|] == sub then
      assert OccursAt(s, sub, 0);
      true
    else if s == [] then
      false
    else
      var r := Contains(s[1..], sub);
      assert r <==> exists i: nat :: OccursAt(s, sub, i) by {
        if r {
          var i: nat :| OccursAt(s[1..], sub, i);
          OccursAtTail(s, sub, i);
        } else {
          forall i: nat | OccursAt(s, sub, i) ensures false {
            assert i != 0;
            OccursAtTail(s, sub, i - 1);
          }
        }
      }
      r
  }

  /** A one-character needle is found exactly when that character occurs. */
  lemma ContainsChar(s: string, c: char)
    ensures Contains(s, [c]) <==> c in s
  {
    if c in s {
      var i :| 0 <= i < |s| && s[i] == c;
      assert OccursAt(s, [c], i);
    }
    if Contains(s, [c]) {
      var i: nat :| OccursAt(s, [c], i);
      assert s[i] == s[i..i + 1][0];
    }
  }

  // ---------------------------------------------------------------------------
  // ToLower

  /** Lower-cases an ASCII capital letter and leaves every other character alone. */
  function LowerAscii(c: char): char
  {
    if 'A' <= c <= 'Z' then (c as int + 32) as char else c
  }

  /** `strings.ToLower`, restricted to ASCII letters: every capital letter
      becomes its small letter, every other character stays as it is. */
  function ToLower(s: string): (r: string)
    ensures |r| == |s|
    ensures forall i :: 0 <= i < |s| ==> !('A' <= r[i] <= 'Z')
    ensures forall i :: 0 <= i < |s| ==>
      if 'A' <= s[i] <= 'Z' then r[i] as int == s[i] as int + 32 else r[i] == s[i]
  {
    seq(|s|, i requires 0 <= i < |s| => LowerAscii(s[i]))
  }

  // ---------------------------------------------------------------------------
  // Split and Join

  /** `strings.Join(parts, string(sep))`. */
  function Join(parts: seq<string>, sep: char): string
  {
    if |parts| == 0 then []
    else if |parts| == 1 then parts[0]
    else parts[0] + [sep] + Join(parts[1..], sep)
  }

  /** The first position of `c` in `s`. */
  function IndexOf(s: string, c: char): (i: nat)
    requires c in s
    ensures i < |s| && s[i] == c && c !in s[..i]
  {
    if s[0] == c then 0 else 1 + IndexOf(s[1..], c)
  }

  /** `strings.Split(s, string(sep))`: the pieces of `s` between the
      occurrences of `sep`; joining them back with `sep` gives `s`. */
  function Split(s: string, sep: char): (parts: seq<string>)
    ensures |parts| >= 1
    ensures forall i :: 0 <= i < |parts| ==> sep !in parts[i]
    ensures Join(parts, sep) == s
    ensures |parts| == 1 <==> sep !in s
    decreases |s|
  {
    if sep !in s then [s]
    else
      var i := IndexOf(s, sep);
      var rest := Split(s[i + 1..], sep);
      assert s == s[..i] + [sep] + s[i + 1..];
      assert ([s[..i]] + rest)[1..] == rest;
      [s[..i]] + rest
  }

  /** Splitting undoes joining when no piece holds the separator. */
  lemma {:induction false} SplitJoin(parts: seq<string>, sep: char)
    requires |parts| >= 1
    requires forall i :: 0 <= i < |parts| ==> sep !in parts[i]
    ensures Split(Join(parts, sep), sep) == parts
  {
    if |parts| == 1 {
    } else {
      var s := Join(parts, sep);
      var p := parts[0];
      var j := Join(parts[1..], sep);
      assert s == p + [sep] + j;
      assert s[..|p|] == p;
      assert s[|p|] == sep;
      assert IndexOf(s, sep) == |p|;
      assert s[|p| + 1..] == j;
      SplitJoin(parts[1..], sep);
      assert Split(s, sep) == [p] + parts[1..];
    }
  }

  /** The first piece of `head sep rest` is `head`, and the others are the
      pieces of `rest`. */
  lemma SplitAtFirst(head: string, rest: string, sep: char)
    requires sep !in head
    ensures Split(head + [sep] + rest, sep) == [head] + Split(rest, sep)
  {
    var s := head + [sep] + rest;
    assert s[..|head|] == head;
    assert s[|head|] == sep;
    assert IndexOf(s, sep) == |head|;
    assert s[|head| + 1..] == rest;
  }

  lemma RegroupPieces(head: string, p: string, rest: string, sep: char)
    ensures head + [sep] + p + ([sep] + rest) == head + [sep] + (p + [sep] + rest)
  {
  }

  /** The second piece of `head sep p tail`, where `tail` is empty or starts
      a new piece, is `p`: the text between the first and second separator. */
  lemma SplitSecondPiece(head: string, p: string, tail: string, sep: char)
    requires sep !in head && sep !in p
    requires tail == [] || tail[0] == sep
    ensures var parts := Split(head + [sep] + p + tail, sep); |parts| >= 2 && parts[1] == p
  {
    if tail == [] {
      assert head + [sep] + p + tail == head + [sep] + p;
      SplitAtFirst(head, p, sep);
    } else {
      var rest := tail[1..];
      assert tail == [sep] + rest;
      RegroupPieces(head, p, rest, sep);
      SplitAtFirst(head, p + [sep] + rest, sep);
      SplitAtFirst(p, rest, sep);
    }
  }

  // ---------------------------------------------------------------------------
  // Fields

  /** The characters of `s` that are not white space, in order. */
  function RemoveSpaces(s: string): string
  {
    if s == [] then []
    else (if IsSpace(s[0]) then [] else [s[0]]) + RemoveSpaces(s[1..])
  }

  lemma {:induction false} RemoveSpacesAppend(a: string, b: string)
    ensures RemoveSpaces(a + b) == RemoveSpaces(a) + RemoveSpaces(b)
  {
    if a != [] {
      assert (a + b)[1..] == a[1..] + b;
      RemoveSpacesAppend(a[1..], b);
    } else {
      assert a + b == b;
    }
  }

  lemma {:induction false} RemoveSpacesOfWord(w: string)
    requires NoSpace(w)
    ensures RemoveSpaces(w) == w
  {
    if w != [] {
      RemoveSpacesOfWord(w[1..]);
    }
  }

  /** The number of non-space characters at the front of `s`. */
  function WordLength(s: string): (n: nat)
    ensures n <= |s|
    ensures forall k :: 0 <= k < n ==> !IsSpace(s[k])
    ensures n < |s| ==> IsSpace(s[n])
  {
    if s == [] || IsSpace(s[0]) then 0 else 1 + WordLength(s[1..])
  }

  /** Concatenates the fields. */
  function Concat(ws: seq<string>): string
  {
    if ws == [] then [] else ws[0] + Concat(ws[1..])
  }

  /** `strings.Fields(s)`: the maximal runs of non-space characters of `s`.
      No field is empty or holds a space, and laid end to end the fields are
      exactly the non-space characters of `s`. */
  function Fields(s: string): (fields: seq<string>)
    ensures forall i :: 0 <= i < |fields| ==> fields[i] != [] && NoSpace(fields[i])
    ensures Concat(fields) == RemoveSpaces(s)
    decreases |s|
  {
    if s == [] then []
    else if IsSpace(s[0]) then Fields(s[1..])
    else
      var n := WordLength(s);
      var rest := Fields(s[n..]);
      assert s == s[..n] + s[n..];
      RemoveSpacesAppend(s[..n], s[n..]);
      RemoveSpacesOfWord(s[..n]);
      assert ([s[..n]] + rest)[1..] == rest;
      [s[..n]] + rest
  }

  lemma {:induction false} WordLengthOfWord(w: string, t: string)
    requires NoSpace(w)
    requires t == [] || IsSpace(t[0])
    ensures WordLength(w + t) == |w|
  {
    if w != [] {
      assert (w + t)[1..] == w[1..] + t;
      WordLengthOfWord(w[1..], t);
    } else {
      assert w + t == t;
    }
  }

  /** Every character of `g` is white space (`g` may be empty). */
  predicate AllSpace(g: string)
  {
    forall k :: 0 <= k < |g| ==> IsSpace(g[k])
  }

  /** The words laid out with the gaps in front of them:
      `gaps[0] + words[0] + gaps[1] + words[1] + …`. */
  function Spread(words: seq<string>, gaps: seq<string>): string
    requires |gaps| == |words|
  {
    if words == [] then [] else gaps[0] + words[0] + Spread(words[1..], gaps[1..])
  }

  /** Gaps for a line: all white space, and every gap between two words
      holds at least one character; the gap before the first word may be
      empty. */
  predicate GapsBetween(gaps: seq<string>)
  {
    forall i :: 0 <= i < |gaps| ==> AllSpace(gaps[i]) && (i > 0 ==> gaps[i] != [])
  }

  lemma {:induction false} FieldsSkipSpaces(g: string, s: string)
    requires AllSpace(g)
    ensures Fields(g + s) == Fields(s)
  {
    if g != [] {
      assert (g + s)[1..] == g[1..] + s;
      FieldsSkipSpaces(g[1..], s);
    } else {
      assert g + s == s;
    }
  }

  lemma FieldsOfWordThen(w: string, s: string)
    requires w != [] && NoSpace(w)
    requires s == [] || IsSpace(s[0])
    ensures Fields(w + s) == [w] + Fields(s)
  {
    WordLengthOfWord(w, s);
    assert (w + s)[..|w|] == w;
    assert (w + s)[|w|..] == s;
  }

  lemma SpreadUnfold(words: seq<string>, gaps: seq<string>, tail: string)
    requires |gaps| == |words| >= 1
    ensures Spread(words, gaps) + tail == gaps[0] + (words[0] + (Spread(words[1..], gaps[1..]) + tail))
  {
  }

  /** A spread line whose first gap is not empty starts with white space. */
  lemma SpreadStartsWithSpace(words: seq<string>, gaps: seq<string>, tail: string)
    requires |gaps| == |words| && AllSpace(tail)
    requires words != [] ==> gaps[0] != [] && AllSpace(gaps[0])
    ensures var r := Spread(words, gaps) + tail; r == [] || IsSpace(r[0])
  {
    if words != [] {
      SpreadUnfold(words, gaps, tail);
    }
  }

  /** The first word of a spread line is its first field. */
  lemma FieldsOfSpreadStep(words: seq<string>, gaps: seq<string>, tail: string)
    requires |gaps| == |words| >= 1 && GapsBetween(gaps) && AllSpace(tail)
    requires words[0] != [] && NoSpace(words[0])
    ensures Fields(Spread(words, gaps) + tail) == [words[0]] + Fields(Spread(words[1..], gaps[1..]) + tail)
  {
    var rest := Spread(words[1..], gaps[1..]) + tail;
    SpreadUnfold(words, gaps, tail);
    FieldsSkipSpaces(gaps[0], words[0] + rest);
    SpreadStartsWithSpace(words[1..], gaps[1..], tail);
    FieldsOfWordThen(words[0], rest);
  }

  /** `Fields` recovers the words of a line however wide the runs of white
      space between, before and after them. */
  lemma {:induction false} FieldsOfSpread(words: seq<string>, gaps: seq<string>, tail: string)
    requires |gaps| == |words| && GapsBetween(gaps) && AllSpace(tail)
    requires forall i :: 0 <= i < |words| ==> words[i] != [] && NoSpace(words[i])
    ensures Fields(Spread(words, gaps) + tail) == words
  {
    if words == [] {
      FieldsSkipSpaces(tail, []);
      assert tail + [] == tail;
      assert Spread(words, gaps) + tail == tail;
    } else {
      FieldsOfSpreadStep(words, gaps, tail);
      FieldsOfSpread(words[1..], gaps[1..], tail);
    }
  }

  /** A space in front of a spread line joins the first gap. */
  lemma SpreadFrontGap(c: char, words: seq<string>, gaps: seq<string>, tail: string)
    requires |gaps| == |words| >= 1
    ensures [c] + (Spread(words, gaps) + tail) == Spread(words, [[c] + gaps[0]] + gaps[1..]) + tail
  {
    var gaps' := [[c] + gaps[0]] + gaps[1..];
    assert gaps'[1..] == gaps[1..];
    var r := Spread(words[1..], gaps[1..]);
    assert [c] + (gaps[0] + words[0] + r + tail) == ([c] + gaps[0]) + words[0] + r + tail;
  }

  /** A word in front of a spread line becomes its first word, with an empty
      gap before it. */
  lemma SpreadFrontWord(w: string, words: seq<string>, gaps: seq<string>, tail: string)
    requires |gaps| == |words|
    ensures w + (Spread(words, gaps) + tail) == Spread([w] + words, [[]] + gaps) + tail
  {
    var ws, gs := [w] + words, [[]] + gaps;
    assert ws[1..] == words && gs[1..] == gaps;
    var r := Spread(words, gaps);
    assert Spread(ws, gs) == gs[0] + ws[0] + r;
    assert gs[0] + ws[0] == w;
    assert w + (r + tail) == (w + r) + tail;
  }

  /** Conversely every line is its fields spread out over such gaps: the
      fields are exactly the maximal runs of non-space characters. */
  lemma {:induction false} FieldsLayout(s: string) returns (gaps: seq<string>, tail: string)
    ensures |gaps| == |Fields(s)| && GapsBetween(gaps) && AllSpace(tail)
    ensures s == Spread(Fields(s), gaps) + tail
    decreases |s|, 1
  {
    if s == [] {
      gaps, tail := [], [];
    } else if IsSpace(s[0]) {
      gaps, tail := LayoutAfterSpace(s);
    } else {
      gaps, tail := LayoutAfterWord(s);
    }
  }

  lemma {:induction false} LayoutAfterSpace(s: string) returns (gaps: seq<string>, tail: string)
    requires s != [] && IsSpace(s[0])
    ensures |gaps| == |Fields(s)| && GapsBetween(gaps) && AllSpace(tail)
    ensures s == Spread(Fields(s), gaps) + tail
    decreases |s|, 0
  {
    var ws := Fields(s[1..]);
    assert Fields(s) == ws;
    var g, t := FieldsLayout(s[1..]);
    assert s == [s[0]] + s[1..];
    if ws == [] {
      gaps, tail := g, [s[0]] + t;
      assert Spread(ws, g) == [];
      assert s == Spread(ws, gaps) + tail;
    } else {
      SpreadFrontGap(s[0], ws, g, t);
      gaps, tail := [[s[0]] + g[0]] + g[1..], t;
    }
  }

  lemma {:induction false} LayoutAfterWord(s: string) returns (gaps: seq<string>, tail: string)
    requires s != [] && !IsSpace(s[0])
    ensures |gaps| == |Fields(s)| && GapsBetween(gaps) && AllSpace(tail)
    ensures s == Spread(Fields(s), gaps) + tail
    decreases |s|, 0
  {
    var n := WordLength(s);
    var w := s[..n];
    var r := s[n..];
    var ws := Fields(r);
    assert Fields(s) == [w] + ws;
    var g, t := FieldsLayout(r);
    if ws != [] && g[0] == [] {
      assert false;
    }
    gaps, tail := [[]] + g, t;
    assert s == w + r;
    SpreadFrontWord(w, ws, g, t);
  }
}
