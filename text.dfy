/** The Python string and list builtins the engine relies on, restricted to
    ASCII: str.upper, str.strip, str.split (with and without a separator),
    str.join, the `in` test on strings and lists, list.index, str.isdigit,
    str.isalpha and int() of a digit string. */
module Text {
  import opened Outcomes

  // ---------------------------------------------------------------------
  // Characters

  /** str.isspace on one ASCII character: tab, line feed, vertical tab,
      form feed, carriage return, the separators 0x1C-0x1F and space. */
  predicate IsSpace(c: char) {
    ('\t' <= c <= '\r') || ('\U{1C}' <= c <= ' ')
  }

  predicate IsDigit(c: char) {
    '0' <= c <= '9'
  }

  predicate IsLetter(c: char) {
    ('a' <= c <= 'z') || ('A' <= c <= 'Z')
  }

  function UpperChar(c: char): char {
    if 'a' <= c <= 'z' then (c as int - 32) as char else c
  }

  /** str.upper on ASCII text. */
  function Upper(s: string): string {
    seq(|s|, i requires 0 <= i < |s| => UpperChar(s[i]))
  }

  /** Comparing s.upper() with a keyword written in capitals ignores case
      and nothing else. */
  lemma UpperMatchesKeyword(s: string, keyword: string)
    requires forall i :: 0 <= i < |keyword| ==> 'A' <= keyword[i] <= 'Z'
    ensures Upper(s) == keyword <==>
              |s| == |keyword| &&
              forall i :: 0 <= i < |s| ==>
                s[i] == keyword[i] || s[i] as int == keyword[i] as int + 32
  {
    if Upper(s) == keyword {
      forall i | 0 <= i < |s|
        ensures s[i] == keyword[i] || s[i] as int == keyword[i] as int + 32
      {
        assert Upper(s)[i] == UpperChar(s[i]);
      }
    }
    if |s| == |keyword| &&
       forall i :: 0 <= i < |s| ==> s[i] == keyword[i] || s[i] as int == keyword[i] as int + 32
    {
      forall i | 0 <= i < |s| ensures Upper(s)[i] == keyword[i] {
        assert Upper(s)[i] == UpperChar(s[i]);
      }
    }
  }

  // ---------------------------------------------------------------------
  // Counting, splitting and joining

  /** The number of occurrences of c in s (str.count with one character). */
  function Count(s: string, c: char): nat {
    if s == [] then 0 else (if s[0] == c then 1 else 0) + Count(s[1..], c)
  }

  /** str.split(sep) with a one-character separator: the pieces between
      the separators, empty pieces included. */
  function Split(s: string, sep: char): (r: seq<string>)
    ensures |r| == Count(s, sep) + 1
  {
    if s == [] then [""]
    else
      var rest := Split(s[1..], sep);
      if s[0] == sep then [""] + rest
      else [[s[0]] + rest[0]] + rest[1..]
  }

  /** sep.join(pieces). */
  function Join(pieces: seq<string>, sep: string): string {
    if |pieces| == 0 then ""
    else if |pieces| == 1 then pieces[0]
    else pieces[0] + sep + Join(pieces[1..], sep)
  }

  lemma JoinPrepend(c: char, p: string, ps: seq<string>, sep: string)
    ensures Join([[c] + p] + ps, sep) == [c] + Join([p] + ps, sep)
  {
    if ps != [] {
      assert ([[c] + p] + ps)[1..] == ps;
      assert ([p] + ps)[1..] == ps;
    }
  }

  /** Splitting, then joining with the same separator, gives back the text. */
  lemma {:induction false} JoinSplit(s: string, sep: char)
    ensures Join(Split(s, sep), [sep]) == s
  {
    if s != [] {
      var rest := Split(s[1..], sep);
      JoinSplit(s[1..], sep);
      if s[0] == sep {
        assert ([""] + rest)[1..] == rest;
      } else {
        JoinPrepend(s[0], rest[0], rest[1..], [sep]);
        assert [rest[0]] + rest[1..] == rest;
      }
    }
  }

  /** No piece of a split contains the separator. */
  lemma {:induction false} SplitPiecesLackSep(s: string, sep: char)
    ensures forall k :: 0 <= k < |Split(s, sep)| ==> sep !in Split(s, sep)[k]
  {
    if s != [] {
      SplitPiecesLackSep(s[1..], sep);
    }
  }

  lemma {:induction false} SplitWithoutSep(p: string, sep: char)
    requires sep !in p
    ensures Split(p, sep) == [p]
  {
    if p != [] {
      SplitWithoutSep(p[1..], sep);
      assert [p[0]] + p[1..] == p;
    }
  }

  lemma {:induction false} SplitAtFirstSep(p: string, sep: char, rest: string)
    requires sep !in p
    ensures Split(p + [sep] + rest, sep) == [p] + Split(rest, sep)
  {
    if p == [] {
      assert p + [sep] + rest == [sep] + rest;
      assert ([sep] + rest)[1..] == rest;
    } else {
      var s := p + [sep] + rest;
      assert s[1..] == p[1..] + [sep] + rest;
      SplitAtFirstSep(p[1..], sep, rest);
      assert [p[0]] + p[1..] == p;
    }
  }

  /** Joining pieces that lack the separator, then splitting, gives back
      the pieces. */
  lemma {:induction false} SplitJoin(pieces: seq<string>, sep: char)
    requires |pieces| >= 1
    requires forall k :: 0 <= k < |pieces| ==> sep !in pieces[k]
    ensures Split(Join(pieces, [sep]), sep) == pieces
  {
    if |pieces| == 1 {
      SplitWithoutSep(pieces[0], sep);
    } else {
      SplitJoin(pieces[1..], sep);
      SplitAtFirstSep(pieces[0], sep, Join(pieces[1..], [sep]));
      assert [pieces[0]] + pieces[1..] == pieces;
    }
  }

  /** `a, b = s.split(sep)`: the two pieces, or None where the unpacking
      raises because the separator does not occur exactly once. */
  function SplitTwo(s: string, sep: char): (r: Option<(string, string)>)
    ensures r.Some? <==> Count(s, sep) == 1
    ensures r.Some? ==> r.value.0 + [sep] + r.value.1 == s
    ensures r.Some? ==> sep !in r.value.0 && sep !in r.value.1
  {
    var parts := Split(s, sep);
    JoinSplit(s, sep);
    SplitPiecesLackSep(s, sep);
    if |parts| == 2 then
      assert parts[1..] == [parts[1]];
      Some((parts[0], parts[1]))
    else None
  }

  // ---------------------------------------------------------------------
  // Whitespace

  /** The position of the first character at or after i that is not
      whitespace (|s| when there is none). */
  function SkipSpaces(s: string, i: nat): (j: nat)
    requires i <= |s|
    ensures i <= j <= |s|
    ensures forall k :: i <= k < j ==> IsSpace(s[k])
    ensures j < |s| ==> !IsSpace(s[j])
    decreases |s| - i
  {
    if i < |s| && IsSpace(s[i]) then SkipSpaces(s, i + 1) else i
  }

  /** The end of s[lo..j] once its trailing whitespace is removed. */
  function TrailEnd(s: string, lo: nat, j: nat): (e: nat)
    requires lo <= j <= |s|
    ensures lo <= e <= j
    ensures forall k :: e <= k < j ==> IsSpace(s[k])
    ensures e > lo ==> !IsSpace(s[e - 1])
    decreases j
  {
    if j > lo && IsSpace(s[j - 1]) then TrailEnd(s, lo, j - 1) else j
  }

  /** The end of the run of non-whitespace characters starting at i. */
  function WordEnd(s: string, i: nat): (j: nat)
    requires i <= |s|
    ensures i <= j <= |s|
    ensures forall k :: i <= k < j ==> !IsSpace(s[k])
    ensures j < |s| ==> IsSpace(s[j])
    decreases |s| - i
  {
    if i < |s| && !IsSpace(s[i]) then WordEnd(s, i + 1) else i
  }

  /** Text with no whitespace at either end. */
  predicate Trimmed(s: string) {
    s == [] || (!IsSpace(s[0]) && !IsSpace(s[|s| - 1]))
  }

  /** The number of whitespace characters s.strip() removes at the front. */
  function Lead(s: string): nat {
    SkipSpaces(s, 0)
  }

  /** s.strip(): s without whitespace at either end; only whitespace is
      removed, and the result is Trimmed. */
  function Strip(s: string): (r: string)
    ensures Trimmed(r)
    ensures Lead(s) + |r| <= |s| && r == s[Lead(s)..Lead(s) + |r|]
    ensures forall k :: 0 <= k < Lead(s) ==> IsSpace(s[k])
    ensures forall k :: Lead(s) + |r| <= k < |s| ==> IsSpace(s[k])
  {
    var lead := Lead(s);
    var end := TrailEnd(s, lead, |s|);
    assert end > lead ==> !IsSpace(s[lead]);
    s[lead..end]
  }

  /** Stripping text that is already trimmed changes nothing. */
  lemma StripTrimmed(s: string)
    requires Trimmed(s)
    ensures Strip(s) == s
  {
    assert Lead(s) == 0;
    assert TrailEnd(s, 0, |s|) == |s|;
  }

  /** Leading whitespace is skipped up to the first character of a
      trimmed word. */
  lemma {:induction false} SkipSpacesBeforeWord(pre: string, w: string, i: nat)
    requires i <= |pre|
    requires forall k :: 0 <= k < |pre| ==> IsSpace(pre[k])
    requires Trimmed(w)
    ensures SkipSpaces(pre + w, i) == |pre|
    decreases |pre| - i
  {
    var s := pre + w;
    if i < |pre| {
      assert s[i] == pre[i];
      SkipSpacesBeforeWord(pre, w, i + 1);
    } else if w != [] {
      assert s[i] == w[0];
    }
  }

  /** Stripping leading whitespace off a trimmed word gives the word. */
  lemma StripSpacesThenWord(pre: string, w: string)
    requires forall k :: 0 <= k < |pre| ==> IsSpace(pre[k])
    requires Trimmed(w)
    ensures Strip(pre + w) == w
  {
    var s := pre + w;
    SkipSpacesBeforeWord(pre, w, 0);
    if w != [] {
      assert s[|s| - 1] == w[|w| - 1];
      assert TrailEnd(s, |pre|, |s|) == |s|;
    }
    assert s[|pre|..|s|] == w;
  }

  /** s.split()[0]: the first whitespace-separated word of s, or None where
      the indexing raises because s is blank. */
  function FirstWord(s: string): Option<string> {
    var i := SkipSpaces(s, 0);
    if i == |s| then None else Some(s[i..WordEnd(s, i)])
  }

  /** There is no first word exactly when s is blank; a first word is
      non-empty and has no whitespace. */
  lemma FirstWordMeaning(s: string)
    ensures FirstWord(s).None? <==> forall k :: 0 <= k < |s| ==> IsSpace(s[k])
    ensures FirstWord(s).Some? ==>
              var w := FirstWord(s).value;
              w != [] && forall k :: 0 <= k < |w| ==> !IsSpace(w[k])
  {
    var i := SkipSpaces(s, 0);
    if i < |s| {
      var w := s[i..WordEnd(s, i)];
      assert forall k :: 0 <= k < |w| ==> w[k] == s[i + k];
    }
  }

  // ---------------------------------------------------------------------
  // Substrings and list positions

  /** sub occurs in s starting at position i. */
  predicate OccursAt(s: string, sub: string, i: int) {
    0 <= i && i + |sub| <= |s| && s[i..i + |sub|] == sub
  }

  /** sub occurs in s at position i or later. */
  function ContainsFrom(s: string, sub: string, i: nat): bool
    decreases |s| - i
  {
    i + |sub| <= |s| && (s[i..i + |sub|] == sub || ContainsFrom(s, sub, i + 1))
  }

  /** Python's `sub in s` on strings. */
  function Contains(s: string, sub: string): bool {
    ContainsFrom(s, sub, 0)
  }

  lemma {:induction false} ContainsFromOccurs(s: string, sub: string, i: nat)
    ensures ContainsFrom(s, sub, i) <==> exists j :: i <= j && OccursAt(s, sub, j)
    decreases |s| - i
  {
    if i + |sub| <= |s| {
      ContainsFromOccurs(s, sub, i + 1);
      if exists j :: i <= j && OccursAt(s, sub, j) {
        var j :| i <= j && OccursAt(s, sub, j);
        if j > i {
          assert i + 1 <= j;
        }
      }
      if s[i..i + |sub|] == sub {
        assert OccursAt(s, sub, i);
      }
    }
  }

  /** Contains holds exactly when sub occurs at some position of s. */
  lemma ContainsOccurs(s: string, sub: string)
    ensures Contains(s, sub) <==> exists i :: OccursAt(s, sub, i)
  {
    ContainsFromOccurs(s, sub, 0);
  }

  /** list.index(x): the first position of x, or None where Python raises
      ValueError because x does not occur. */
  function IndexOf<T(==)>(xs: seq<T>, x: T): (r: Option<nat>)
    ensures r.None? <==> x !in xs
    ensures r.Some? ==> r.value < |xs| && xs[r.value] == x && x !in xs[..r.value]
  {
    if xs == [] then None
    else if xs[0] == x then Some(0)
    else match IndexOf(xs[1..], x)
      case None => None
      case Some(i) =>
        assert xs[..i + 1] == [xs[0]] + xs[1..][..i];
        Some(i + 1)
  }

  // ---------------------------------------------------------------------
  // Digits and letters

  /** str.isdigit: non-empty and all decimal digits. */
  predicate IsDigits(s: string) {
    |s| > 0 && forall k :: 0 <= k < |s| ==> IsDigit(s[k])
  }

  /** str.isalpha: non-empty and all letters. */
  predicate IsAlpha(s: string) {
    |s| > 0 && forall k :: 0 <= k < |s| ==> IsLetter(s[k])
  }

  function DigitOf(c: char): nat
    requires IsDigit(c)
  {
    c as int - '0' as int
  }

  /** int(s) for a string of decimal digits. */
  function DigitsValue(s: string): nat
    requires forall k :: 0 <= k < |s| ==> IsDigit(s[k])
  {
    if s == [] then 0
    else DigitsValue(s[..|s| - 1]) * 10 + DigitOf(s[|s| - 1])
  }

  /** A digit string has a positive value exactly when some digit is not 0,
      so "007" is positive and "000" is not. */
  lemma {:induction false} DigitsValuePositive(s: string)
    requires forall k :: 0 <= k < |s| ==> IsDigit(s[k])
    ensures DigitsValue(s) > 0 <==> exists k :: 0 <= k < |s| && s[k] != '0'
  {
    if s != [] {
      var init := s[..|s| - 1];
      DigitsValuePositive(init);
      if exists k :: 0 <= k < |init| && init[k] != '0' {
        var k :| 0 <= k < |init| && init[k] != '0';
        assert s[k] != '0';
      }
      if exists k :: 0 <= k < |s| && s[k] != '0' {
        var k :| 0 <= k < |s| && s[k] != '0';
        if k < |s| - 1 {
          assert init[k] != '0';
        }
      }
    }
  }
}
