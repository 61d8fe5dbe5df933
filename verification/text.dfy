/**
 * The few Ruby String and Array builtins the number writer relies on:
 * `String#strip`, `String#split(' ')`, `Array#join` and `Array#uniq`,
 * each stated on `seq<char>` / `seq<string>` with the property that
 * determines it.
 */
module Text {

  // ---------------------------------------------------------------------
  // String#strip
  // ---------------------------------------------------------------------

  /** The characters `String#strip` removes from either end:
      NUL, tab, line feed, vertical tab, form feed, carriage return, space. */
  predicate IsStripSpace(c: char) {
    c == '\0' || c == '\t' || c == '\n' || c == '\U{B}' || c == '\U{C}' || c == '\r' || c == ' '
  }

  predicate AllStripSpace(s: string) {
    forall i :: 0 <= i < |s| ==> IsStripSpace(s[i])
  }

  /** Neither end of `s` is a strippable character. */
  predicate Trimmed(s: string) {
    s == [] || (!IsStripSpace(s[0]) && !IsStripSpace(s[|s| - 1]))
  }

  /** `s` without its leading whitespace. */
  function StripLeft(s: string): (r: string)
    ensures |r| <= |s| && r == s[|s| - |r|..]
    ensures AllStripSpace(s[..|s| - |r|])
    ensures r == [] || !IsStripSpace(r[0])
    decreases |s|
  {
    if s != [] && IsStripSpace(s[0]) then
      var t := s[1..];
      var r := StripLeft(t);
      assert s[|s| - |r|..] == t[|t| - |r|..];
      assert s[..|s| - |r|] == [s[0]] + t[..|t| - |r|];
      r
    else s
  }

  /** `s` without its trailing whitespace. */
  function StripRight(s: string): (r: string)
    ensures |r| <= |s| && r == s[..|r|]
    ensures AllStripSpace(s[|r|..])
    ensures r == [] || !IsStripSpace(r[|r| - 1])
    decreases |s|
  {
    if s != [] && IsStripSpace(s[|s| - 1]) then
      var t := s[..|s| - 1];
      var r := StripRight(t);
      assert s[..|r|] == t[..|r|];
      assert s[|r|..] == t[|r|..] + [s[|s| - 1]];
      r
    else s
  }

  /** `String#strip`: the result is a trimmed infix of `s`, and what was
      cut off on either side is whitespace only. */
  function Strip(s: string): (r: string)
    ensures Trimmed(r)
    ensures |r| <= |s|
    ensures exists i | 0 <= i <= |s| - |r| ::
              s[i..i + |r|] == r && AllStripSpace(s[..i]) && AllStripSpace(s[i + |r|..])
  {
    var t := StripLeft(s);
    var r := StripRight(t);
    var i := |s| - |t|;
    assert t == s[i..];
    assert r == t[..|r|];
    assert s[i..i + |r|] == r;
    assert s[i + |r|..] == t[|r|..];
    assert AllStripSpace(s[..i]) && AllStripSpace(s[i + |r|..]);
    r
  }

  lemma StripLeftSkips(lead: string, t: string)
    requires AllStripSpace(lead)
    requires t == [] || !IsStripSpace(t[0])
    ensures StripLeft(lead + t) == t
  {
    if t != [] {
      assert (lead + t)[|lead|] == t[0];
    }
  }

  lemma StripRightSkips(t: string, trail: string)
    requires AllStripSpace(trail)
    requires t == [] || !IsStripSpace(t[|t| - 1])
    ensures StripRight(t + trail) == t
  {
    if t != [] {
      assert (t + trail)[|t| - 1] == t[|t| - 1];
    }
  }

  /** Strip is determined by its contract: cutting whitespace off both
      ends of a trimmed string gives back exactly that string. */
  lemma StripUnique(lead: string, a: string, trail: string)
    requires AllStripSpace(lead) && AllStripSpace(trail) && Trimmed(a)
    ensures Strip(lead + a + trail) == a
  {
    if a == [] {
      assert lead + a + trail == lead + trail;
      assert AllStripSpace(lead + trail);
      StripLeftSkips(lead + trail, []);
      assert lead + trail + [] == lead + trail;
      StripRightSkips([], []);
    } else {
      assert lead + a + trail == lead + (a + trail);
      StripLeftSkips(lead, a + trail);
      StripRightSkips(a, trail);
    }
  }

  // ---------------------------------------------------------------------
  // String#split(' ') and Array#join(' ')
  // ---------------------------------------------------------------------

  /** The separators of the awk-style `String#split(' ')`. */
  predicate IsSplitSpace(c: char) {
    c == '\t' || c == '\n' || c == '\U{B}' || c == '\U{C}' || c == '\r' || c == ' '
  }

  /** A field `split(' ')` can produce: non-empty, no separator inside. */
  predicate IsWord(w: string) {
    w != [] && forall i :: 0 <= i < |w| ==> !IsSplitSpace(w[i])
  }

  /** Length of the run of non-separators `s` starts with. */
  function WordEnd(s: string): (n: nat)
    ensures n <= |s|
    ensures forall i :: 0 <= i < n ==> !IsSplitSpace(s[i])
    ensures n < |s| ==> IsSplitSpace(s[n])
    decreases |s|
  {
    if s == [] || IsSplitSpace(s[0]) then 0 else 1 + WordEnd(s[1..])
  }

  /** `String#split(' ')`: the maximal runs of non-separators, left to
      right; leading, trailing and repeated separators yield no field. */
  function SplitWords(s: string): (ws: seq<string>)
    ensures forall i :: 0 <= i < |ws| ==> IsWord(ws[i])
    decreases |s|
  {
    if s == [] then []
    else if IsSplitSpace(s[0]) then SplitWords(s[1..])
    else
      var n := WordEnd(s);
      assert IsWord(s[..n]);
      [s[..n]] + SplitWords(s[n..])
  }

  /** `Array#join(sep)`. */
  function Join(ws: seq<string>, sep: string): string
    decreases |ws|
  {
    if |ws| == 0 then ""
    else if |ws| == 1 then ws[0]
    else ws[0] + sep + Join(ws[1..], sep)
  }

  lemma WordEndOfWord(w: string, rest: string)
    requires IsWord(w)
    requires rest == [] || IsSplitSpace(rest[0])
    ensures WordEnd(w + rest) == |w|
  {
    if rest != [] {
      assert (w + rest)[|w|] == rest[0];
    }
  }

  predicate AllSplitSpace(s: string) {
    forall i :: 0 <= i < |s| ==> IsSplitSpace(s[i])
  }

  /** Separators before a string yield no field. */
  lemma {:induction false} SplitSkipsSpace(lead: string, s: string)
    requires AllSplitSpace(lead)
    ensures SplitWords(lead + s) == SplitWords(s)
    decreases |lead|
  {
    if lead == [] {
      assert lead + s == s;
    } else {
      assert (lead + s)[0] == lead[0];
      assert (lead + s)[1..] == lead[1..] + s;
      SplitSkipsSpace(lead[1..], s);
    }
  }

  /** A word followed by a separator (or by nothing) is the first field. */
  lemma SplitWordFirst(w: string, rest: string)
    requires IsWord(w)
    requires rest == [] || IsSplitSpace(rest[0])
    ensures SplitWords(w + rest) == [w] + SplitWords(rest)
  {
    WordEndOfWord(w, rest);
    assert (w + rest)[0] == w[0];
    assert (w + rest)[..|w|] == w;
    assert (w + rest)[|w|..] == rest;
  }

  lemma {:induction false} SplitJoinTrail(ws: seq<string>, sep: string, trail: string)
    requires forall i :: 0 <= i < |ws| ==> IsWord(ws[i])
    requires sep != [] && AllSplitSpace(sep) && AllSplitSpace(trail)
    ensures SplitWords(Join(ws, sep) + trail) == ws
    decreases |ws|
  {
    if |ws| == 0 {
      assert Join(ws, sep) + trail == trail + [];
      SplitSkipsSpace(trail, []);
    } else if |ws| == 1 {
      SplitWordFirst(ws[0], trail);
      assert trail == trail + [];
      SplitSkipsSpace(trail, []);
    } else {
      var rest := Join(ws[1..], sep) + trail;
      assert Join(ws, sep) + trail == ws[0] + (sep + rest);
      SplitWordFirst(ws[0], sep + rest);
      SplitSkipsSpace(sep, rest);
      SplitJoinTrail(ws[1..], sep, trail);
      assert ws == [ws[0]] + ws[1..];
    }
  }

  /** `split(' ')` gives back the words of a join whatever separators
      surround and divide them: leading and trailing separators and runs
      of separators yield no field. */
  lemma SplitJoin(lead: string, ws: seq<string>, sep: string, trail: string)
    requires forall i :: 0 <= i < |ws| ==> IsWord(ws[i])
    requires sep != [] && AllSplitSpace(sep)
    requires AllSplitSpace(lead) && AllSplitSpace(trail)
    ensures SplitWords(lead + Join(ws, sep) + trail) == ws
  {
    assert lead + Join(ws, sep) + trail == lead + (Join(ws, sep) + trail);
    SplitSkipsSpace(lead, Join(ws, sep) + trail);
    SplitJoinTrail(ws, sep, trail);
  }

  /** Appending one element appends the separator and that element. */
  lemma {:induction false} JoinSnoc(ws: seq<string>, x: string, sep: string)
    requires ws != []
    ensures Join(ws + [x], sep) == Join(ws, sep) + sep + x
    decreases |ws|
  {
    if |ws| > 1 {
      assert (ws + [x])[1..] == ws[1..] + [x];
      JoinSnoc(ws[1..], x, sep);
    }
  }

  /** A join ends with the last character of its last element. */
  lemma {:induction false} JoinLastChar(ws: seq<string>, sep: string)
    requires ws != [] && ws[|ws| - 1] != []
    ensures var s := Join(ws, sep); s != [] && s[|s| - 1] == ws[|ws| - 1][|ws[|ws| - 1]| - 1]
    decreases |ws|
  {
    if |ws| > 1 {
      JoinLastChar(ws[1..], sep);
    }
  }

  // ---------------------------------------------------------------------
  // Array#uniq
  // ---------------------------------------------------------------------

  predicate NoDuplicates<T(==)>(s: seq<T>) {
    forall i, j :: 0 <= i < j < |s| ==> s[i] != s[j]
  }

  /** The position of the first occurrence of `x` in `s`. */
  function FirstIndex<T(==)>(s: seq<T>, x: T): (k: nat)
    requires x in s
    ensures k < |s| && s[k] == x && x !in s[..k]
    decreases |s|
  {
    if s[0] == x then 0 else 1 + FirstIndex(s[1..], x)
  }

  lemma FirstIndexExtend<T>(s: seq<T>, x: T, y: T)
    requires y in s
    ensures FirstIndex(s + [x], y) == FirstIndex(s, y)
  {
    var k := FirstIndex(s, y);
    assert (s + [x])[k] == y;
  }

  lemma FirstIndexLast<T>(s: seq<T>, x: T)
    requires x !in s
    ensures FirstIndex(s + [x], x) == |s|
  {
    assert (s + [x])[..|s|] == s;
  }

  /** `Array#uniq`: keeps the first occurrence of every element, in the
      order of those first occurrences. */
  function Uniq<T(==)>(s: seq<T>): seq<T>
    decreases |s|
  {
    if s == [] then []
    else
      var r := Uniq(s[..|s| - 1]);
      if s[|s| - 1] in r then r else r + [s[|s| - 1]]
  }

  /** `uniq` of a list extended by one element. */
  lemma UniqSnoc<T>(s: seq<T>, x: T)
    ensures Uniq(s + [x]) == if x in Uniq(s) then Uniq(s) else Uniq(s) + [x]
  {
    assert (s + [x])[..|s|] == s;
  }

  /** What `uniq` promises: no duplicates, the same elements, the first
      element first, and the elements ordered by their first occurrence,
      so only later duplicates are dropped. */
  lemma {:induction false} UniqSpec<T(!new)>(s: seq<T>)
    ensures var r := Uniq(s);
            && NoDuplicates(r)
            && (forall x :: x in r <==> x in s)
            && |r| <= |s|
            && (s != [] ==> r != [] && r[0] == s[0])
            && (forall i, j :: 0 <= i < j < |r| ==> FirstIndex(s, r[i]) < FirstIndex(s, r[j]))
    decreases |s|
  {
    if s != [] {
      var init := s[..|s| - 1];
      var x := s[|s| - 1];
      assert s == init + [x];
      UniqSpec(init);
      var r := Uniq(init);
      forall y | y in init ensures FirstIndex(s, y) == FirstIndex(init, y) {
        FirstIndexExtend(init, x, y);
      }
      if x !in r {
        FirstIndexLast(init, x);
        assert forall i :: 0 <= i < |r| ==> r[i] in init;
        assert forall i :: 0 <= i < |r| ==> (r + [x])[i] == r[i];
      }
    }
  }
}
