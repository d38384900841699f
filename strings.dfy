/**
  The parts of Go's `strings` package that the core relies on, over `string` = `seq<char>`
  (one `char` stands for one Unicode code point).
  `ToLower` folds ASCII letters only; Go folds every Unicode letter.
 */
module Strings {
  import opened Wrappers

  predicate HasPrefix(s: string, p: string) {
    |p| <= |s| && s[..|p|] == p
  }

  predicate HasSuffix(s: string, x: string) {
    |x| <= |s| && s[|s| - |x|..] == x
  }

  /** `strings.TrimPrefix`: removes `p` once from the front of `s`, if it is there. */
  function TrimPrefix(s: string, p: string): (r: string)
    ensures HasPrefix(s, p) ==> p + r == s
    ensures !HasPrefix(s, p) ==> r == s
  {
    if HasPrefix(s, p) then s[|p|..] else s
  }

  /** `strings.TrimSuffix`: removes `x` once from the end of `s`, if it is there. */
  function TrimSuffix(s: string, x: string): (r: string)
    ensures HasSuffix(s, x) ==> r + x == s
    ensures !HasSuffix(s, x) ==> r == s
  {
    if HasSuffix(s, x) then s[..|s| - |x|] else s
  }

  /** Go's `unicode.IsSpace`. */
  predicate IsSpace(c: char) {
    c == ' ' || c == '\t' || c == '\n' || c == '\U{000B}' || c == '\U{000C}' || c == '\r'
    || c == '\U{0085}' || c == '\U{00A0}' || c == '\U{1680}' || ('\U{2000}' <= c <= '\U{200A}')
    || c == '\U{2028}' || c == '\U{2029}' || c == '\U{202F}' || c == '\U{205F}' || c == '\U{3000}'
  }

  /** Every character of `s` is white space (this includes the empty string). */
  predicate IsBlank(s: string) {
    forall i :: 0 <= i < |s| ==> IsSpace(s[i])
  }

  function TrimLeftSpace(s: string): (r: string)
    ensures HasSuffix(s, r)
    ensures r == [] || !IsSpace(r[0])
    ensures IsBlank(s[..|s| - |r|])
    ensures r == [] <==> IsBlank(s)
  {
    if s != [] && IsSpace(s[0]) then
      var r := TrimLeftSpace(s[1..]);
      TrimLeftStep(s, r);
      r
    else
      assert s[..0] == [];
      s
  }

  function TrimRightSpace(s: string): (r: string)
    ensures HasPrefix(s, r)
    ensures r == [] || !IsSpace(r[|r| - 1])
    ensures IsBlank(s[|r|..])
    ensures r == [] <==> IsBlank(s)
  {
    if s != [] && IsSpace(s[|s| - 1]) then
      var r := TrimRightSpace(s[..|s| - 1]);
      TrimRightStep(s, r);
      r
    else
      assert s[|s|..] == [];
      s
  }

  /** What trimming the rest of `s` after a leading space gives holds of `s` itself. */
  lemma TrimLeftStep(s: string, r: string)
    requires s != [] && IsSpace(s[0])
    requires HasSuffix(s[1..], r) && IsBlank(s[1..][..|s[1..]| - |r|]) && (r == [] <==> IsBlank(s[1..]))
    ensures HasSuffix(s, r) && IsBlank(s[..|s| - |r|]) && (r == [] <==> IsBlank(s))
  {
    var t := s[1..];
    assert s[|s| - |r|..] == t[|t| - |r|..];
    forall k | 0 <= k < |s| - |r| ensures IsSpace(s[k]) {
      if k > 0 {
        assert s[k] == t[..|t| - |r|][k - 1];
      }
    }
    if IsBlank(t) {
      forall k | 0 <= k < |s| ensures IsSpace(s[k]) {
        if k > 0 {
          assert s[k] == t[k - 1];
        }
      }
    } else {
      var k :| 0 <= k < |t| && !IsSpace(t[k]);
      assert s[k + 1] == t[k];
    }
  }

  /** What trimming the front of `s` before a trailing space gives holds of `s` itself. */
  lemma TrimRightStep(s: string, r: string)
    requires s != [] && IsSpace(s[|s| - 1])
    requires HasPrefix(s[..|s| - 1], r) && IsBlank(s[..|s| - 1][|r|..]) && (r == [] <==> IsBlank(s[..|s| - 1]))
    ensures HasPrefix(s, r) && IsBlank(s[|r|..]) && (r == [] <==> IsBlank(s))
  {
    var t := s[..|s| - 1];
    assert s[..|r|] == t[..|r|];
    forall k | |r| <= k < |s| ensures IsSpace(s[k]) {
      if k < |s| - 1 {
        assert s[k] == t[|r|..][k - |r|];
      }
    }
    assert s[|r|..][0..] == s[|r|..];
    if IsBlank(t) {
      forall k | 0 <= k < |s| ensures IsSpace(s[k]) {
        if k < |s| - 1 {
          assert s[k] == t[k];
        }
      }
    } else {
      var k :| 0 <= k < |t| && !IsSpace(t[k]);
      assert s[k] == t[k];
    }
  }

  /** `strings.TrimSpace`: removes leading and trailing white space; the result is ""
      exactly when every character of `s` is white space. */
  function TrimSpace(s: string): (r: string)
    ensures r == "" <==> IsBlank(s)
  {
    TrimRightSpace(TrimLeftSpace(s))
  }

  function LowerChar(c: char): char {
    if 'A' <= c <= 'Z' then (c as int + 32) as char else c
  }

  /** `strings.ToLower`, restricted to ASCII letters. */
  function ToLower(s: string): (r: string)
    ensures |r| == |s|
  {
    seq(|s|, i requires 0 <= i < |s| => LowerChar(s[i]))
  }

  /** `sub` occurs in `s` starting at index `j`. */
  predicate OccursAt(s: string, sub: string, j: nat) {
    j + |sub| <= |s| && s[j..j + |sub|] == sub
  }

  /** Removing a prefix that was put in front gives back the rest. */
  lemma TrimPrefixConcat(p: string, x: string)
    ensures TrimPrefix(p + x, p) == x
  {
    assert (p + x)[..|p|] == p && (p + x)[|p|..] == x;
  }

  /** Removing a suffix that was appended gives back the front. */
  lemma TrimSuffixConcat(y: string, x: string)
    ensures TrimSuffix(y + x, x) == y
  {
    assert (y + x)[|y|..] == x && (y + x)[..|y|] == y;
  }

  lemma OccursAtTail(s: string, sub: string, j: nat)
    requires s != []
    ensures OccursAt(s, sub, j + 1) == OccursAt(s[1..], sub, j)
  {
    if j + 1 + |sub| <= |s| {
      assert s[j + 1..j + 1 + |sub|] == s[1..][j..j + |sub|];
    }
  }

  /** The first index at which `sub` occurs in `s` (`strings.Index`); `IndexFindsFirst` says so. */
  function Index(s: string, sub: string): (r: Option<nat>)
    ensures r.Some? ==> r.value + |sub| <= |s|
    decreases |s|
  {
    if HasPrefix(s, sub) then Some(0)
    else if |s| <= |sub| then None
    else
      var r := Index(s[1..], sub);
      if r.None? then None else Some(r.value + 1)
  }

  /** `Index` gives an index at which `sub` occurs, and no earlier one does; it gives nothing
      exactly when `sub` occurs nowhere. */
  lemma {:induction false} IndexFindsFirst(s: string, sub: string)
    ensures var r := Index(s, sub);
      && (r.Some? ==> OccursAt(s, sub, r.value) && forall j: nat :: j < r.value ==> !OccursAt(s, sub, j))
      && (r.None? ==> forall j: nat :: !OccursAt(s, sub, j))
    decreases |s|
  {
    if HasPrefix(s, sub) {
      assert OccursAt(s, sub, 0);
    } else if |s| > |sub| {
      IndexFindsFirst(s[1..], sub);
      forall j: nat ensures OccursAt(s, sub, j + 1) == OccursAt(s[1..], sub, j) {
        OccursAtTail(s, sub, j);
      }
      assert !OccursAt(s, sub, 0);
      forall j: nat | j >= 1 ensures OccursAt(s, sub, j) == OccursAt(s[1..], sub, j - 1) {
        OccursAtTail(s, sub, j - 1);
      }
    } else {
      assert !OccursAt(s, sub, 0);
    }
  }

  /** `strings.Contains`. */
  predicate Contains(s: string, sub: string) {
    Index(s, sub).Some?
  }

  /** The pieces `strings.Split` gives for an empty separator: one per character. */
  function Explode(s: string): (parts: seq<string>)
    ensures |parts| == |s|
  {
    if s == [] then [] else [[s[0]]] + Explode(s[1..])
  }

  /** `strings.Split`: the pieces of `s` between the occurrences of `sep`;
      with an empty `sep`, every character on its own. */
  function Split(s: string, sep: string): (parts: seq<string>)
    ensures sep != "" ==> |parts| >= 1
    decreases |s|
  {
    if sep == "" then Explode(s) else SplitNonEmpty(s, sep)
  }

  /** `strings.Cut`: the text before and the text after the first occurrence of `sep`. */
  function Cut(s: string, sep: string): (r: Option<(string, string)>)
    ensures r.Some? ==> |r.value.0| + |sep| + |r.value.1| == |s|
  {
    match Index(s, sep)
    case None => None
    case Some(i) => Some((s[..i], s[i + |sep|..]))
  }

  /** `Split` on a non-empty separator. */
  function SplitNonEmpty(s: string, sep: string): (parts: seq<string>)
    requires sep != ""
    ensures |parts| >= 1
    decreases |s|
  {
    match Cut(s, sep)
    case None => [s]
    case Some((before, after)) => [before] + SplitNonEmpty(after, sep)
  }

  /** `strings.Join`. */
  function Join(parts: seq<string>, sep: string): string {
    if |parts| == 0 then ""
    else if |parts| == 1 then parts[0]
    else parts[0] + sep + Join(parts[1..], sep)
  }

  lemma JoinCons(head: string, tail: seq<string>, sep: string)
    requires |tail| >= 1
    ensures Join([head] + tail, sep) == head + sep + Join(tail, sep)
  {
    assert ([head] + tail)[1..] == tail;
  }

  /** A join of at least two parts is the first two joined by `sep`, or that and `sep`
      followed by more. */
  lemma JoinFirstTwo(parts: seq<string>, sep: string)
    requires |parts| >= 2
    ensures var t := Join(parts, sep);
      t == parts[0] + sep + parts[1] || HasPrefix(t, parts[0] + sep + parts[1] + sep)
  {
    var tail := parts[1..];
    assert parts == [parts[0]] + tail;
    JoinCons(parts[0], tail, sep);
    if |parts| > 2 {
      var more := Join(parts[2..], sep);
      assert tail == [parts[1]] + parts[2..];
      JoinCons(parts[1], parts[2..], sep);
      var front := parts[0] + sep + parts[1] + sep;
      assert Join(parts, sep) == front + more;
      assert (front + more)[..|front|] == front;
    }
  }

  lemma {:induction false} JoinExplode(s: string)
    ensures Join(Explode(s), "") == s
  {
    if s != [] {
      JoinExplode(s[1..]);
      if |s| == 1 {
        assert s == [s[0]];
      } else {
        JoinCons([s[0]], Explode(s[1..]), "");
        assert s == [s[0]] + s[1..];
      }
    }
  }

  /** Joining the pieces of a split with the same separator gives back the string. */
  lemma {:induction false} JoinSplit(s: string, sep: string)
    ensures Join(Split(s, sep), sep) == s
    decreases |s|
  {
    if sep == "" {
      JoinExplode(s);
    } else {
      var r := Index(s, sep);
      if r.Some? {
        var i := r.value;
        var rest := s[i + |sep|..];
        IndexFindsFirst(s, sep);
        Around(s, sep, i);
        SplitAt(s, sep, i, rest);
        JoinSplit(rest, sep);
        JoinCons(s[..i], Split(rest, sep), sep);
      }
    }
  }

  /** A string is what comes before an occurrence, the occurrence, and what follows it. */
  lemma Around(s: string, sub: string, i: nat)
    requires OccursAt(s, sub, i)
    ensures s == s[..i] + sub + s[i + |sub|..]
  {
    assert s == s[..i] + s[i..i + |sub|] + s[i + |sub|..];
  }

  /** No piece of a split on a non-empty separator contains the separator. */
  lemma {:induction false} SplitPiecesLackSeparator(s: string, sep: string)
    requires sep != ""
    ensures forall k :: 0 <= k < |Split(s, sep)| ==> !Contains(Split(s, sep)[k], sep)
    decreases |s|
  {
    var r := Index(s, sep);
    if r.Some? {
      var i := r.value;
      var rest := s[i + |sep|..];
      HeadLacksSeparator(s, sep, i);
      SplitPiecesLackSeparator(rest, sep);
      var parts := Split(s, sep);
      var later := Split(rest, sep);
      SplitAt(s, sep, i, rest);
      forall k | 0 <= k < |parts| ensures !Contains(parts[k], sep) {
        if k > 0 {
          assert parts[k] == later[k - 1];
        }
      }
    }
  }

  /** The text before the first occurrence of `sep` does not contain it. */
  lemma HeadLacksSeparator(s: string, sep: string, i: nat)
    requires sep != "" && Index(s, sep) == Some(i)
    ensures !Contains(s[..i], sep)
  {
    var head := s[..i];
    IndexFindsFirst(s, sep);
    IndexFindsFirst(head, sep);
    forall j: nat ensures !OccursAt(head, sep, j) {
      if j + |sep| <= |head| {
        assert head[j..j + |sep|] == s[j..j + |sep|];
        assert !OccursAt(s, sep, j);
      }
    }
  }

  lemma OccursAtChar(s: string, c: char)
    ensures forall j: nat :: OccursAt(s, [c], j) <==> j < |s| && s[j] == c
  {
    forall j: nat ensures OccursAt(s, [c], j) <==> j < |s| && s[j] == c {
      if j < |s| {
        assert s[j..j + 1] == [s[j]];
      }
    }
  }

  /** Splitting what `Join` built with a one-character separator that occurs in no part
      gives back the parts. */
  lemma {:induction false} SplitJoin(parts: seq<string>, c: char)
    requires |parts| >= 1
    requires forall k :: 0 <= k < |parts| ==> c !in parts[k]
    ensures Split(Join(parts, [c]), [c]) == parts
  {
    var s := Join(parts, [c]);
    var head := parts[0];
    OccursAtChar(s, c);
    IndexFindsFirst(s, [c]);
    if |parts| == 1 {
      assert forall j: nat :: !OccursAt(s, [c], j);
    } else {
      var rest := Join(parts[1..], [c]);
      assert s == head + [c] + rest;
      assert s[|head|] == c;
      assert forall j: nat :: j < |head| ==> s[j] == head[j];
      assert Index(s, [c]) == Some(|head|);
      assert s[..|head|] == head;
      assert s[|head| + 1..] == rest;
      SplitAt(s, [c], |head|, rest);
      SplitJoin(parts[1..], c);
      assert parts == [head] + parts[1..];
    }
  }

  /** `strings.ReplaceAll` for a non-empty pattern (every use in the core has one). */
  function ReplaceAll(s: string, pattern: string, replacement: string): string
    requires pattern != ""
    decreases |s|
  {
    match Cut(s, pattern)
    case None => s
    case Some((before, after)) => before + replacement + ReplaceAll(after, pattern, replacement)
  }

  /** A string in which the pattern does not occur comes back from `ReplaceAll` unchanged. */
  lemma ReplaceAllWithoutPattern(s: string, pattern: string, replacement: string)
    requires pattern != "" && !Contains(s, pattern)
    ensures ReplaceAll(s, pattern, replacement) == s
  {
  }

  /** Replacing every occurrence is the same as splitting on the pattern and joining with
      the replacement. */
  lemma {:induction false} ReplaceAllIsSplitJoin(s: string, pattern: string, replacement: string)
    requires pattern != ""
    ensures ReplaceAll(s, pattern, replacement) == Join(Split(s, pattern), replacement)
    decreases |s|
  {
    var r := Index(s, pattern);
    if r.Some? {
      var i := r.value;
      var rest := s[i + |pattern|..];
      ReplaceAllAt(s, pattern, replacement, i, rest);
      SplitAt(s, pattern, i, rest);
      ReplaceAllIsSplitJoin(rest, pattern, replacement);
      JoinCons(s[..i], Split(rest, pattern), replacement);
    }
  }

  /** `ReplaceAll` at the first occurrence `i` of the pattern, `rest` being what follows it. */
  lemma ReplaceAllAt(s: string, pattern: string, replacement: string, i: nat, rest: string)
    requires pattern != "" && Index(s, pattern) == Some(i)
    requires i + |pattern| <= |s| && rest == s[i + |pattern|..]
    ensures ReplaceAll(s, pattern, replacement) == s[..i] + replacement + ReplaceAll(rest, pattern, replacement)
  {
    assert Cut(s, pattern) == Some((s[..i], rest));
  }

  /** `Split` at the first occurrence `i` of a non-empty separator, `rest` being what follows it. */
  lemma SplitAt(s: string, sep: string, i: nat, rest: string)
    requires sep != "" && Index(s, sep) == Some(i)
    requires i + |sep| <= |s| && rest == s[i + |sep|..]
    ensures Split(s, sep) == [s[..i]] + Split(rest, sep)
  {
    SplitNonEmptyAt(s, sep, s[..i], rest);
    assert Split(rest, sep) == SplitNonEmpty(rest, sep);
  }

  lemma SplitNonEmptyAt(s: string, sep: string, before: string, rest: string)
    requires sep != "" && Cut(s, sep) == Some((before, rest))
    ensures SplitNonEmpty(s, sep) == [before] + SplitNonEmpty(rest, sep)
  {
  }

  /** Every character of the result of `ReplaceAll` comes from the string or from the replacement. */
  lemma {:induction false} ReplaceAllChars(s: string, pattern: string, replacement: string)
    requires pattern != ""
    ensures forall c :: c in ReplaceAll(s, pattern, replacement) ==> c in s || c in replacement
    decreases |s|
  {
    var r := Index(s, pattern);
    if r.Some? {
      var i := r.value;
      var rest := s[i + |pattern|..];
      ReplaceAllChars(rest, pattern, replacement);
      ReplaceAllAt(s, pattern, replacement, i, rest);
      assert forall c :: c in s[..i] || c in rest ==> c in s;
    }
  }

  /** The first piece of a split on one character is everything before its first occurrence. */
  lemma FirstPiece(line: string, c: char, rest: string)
    requires c !in line
    ensures Split(line + [c] + rest, [c])[0] == line
    ensures Split(line, [c]) == [line]
  {
    var s := line + [c] + rest;
    OccursAtChar(s, c);
    OccursAtChar(line, c);
    IndexFindsFirst(s, [c]);
    IndexFindsFirst(line, [c]);
    assert s[|line|] == c;
    assert forall j :: 0 <= j < |line| ==> s[j] == line[j];
    assert Index(s, [c]) == Some(|line|);
    assert s[..|line|] == line;
  }
}
