/** The few Python `str` operations the extension relies on, with Python's
    semantics: `strip`, `strip(chars)`, `find`, `split(sep)` and `sep.join`. */
module PyStr {

  /** The characters for which Python's `str.isspace()` holds; `str.strip()`
      without an argument removes exactly these. */
  const Whitespace: set<char> := {
    '\t', '\n', '\U{000B}', '\U{000C}', '\r',
    '\U{001C}', '\U{001D}', '\U{001E}', '\U{001F}', ' ',
    '\U{0085}', '\U{00A0}', '\U{1680}',
    '\U{2000}', '\U{2001}', '\U{2002}', '\U{2003}', '\U{2004}', '\U{2005}',
    '\U{2006}', '\U{2007}', '\U{2008}', '\U{2009}', '\U{200A}',
    '\U{2028}', '\U{2029}', '\U{202F}', '\U{205F}', '\U{3000}'
  }

  predicate AllIn(s: string, chars: set<char>)
  {
    forall i :: 0 <= i < |s| ==> s[i] in chars
  }

  predicate StartsWith(s: string, prefix: string)
  {
    |prefix| <= |s| && s[..|prefix|] == prefix
  }

  predicate EndsWith(s: string, suffix: string)
  {
    |suffix| <= |s| && s[|s| - |suffix|..] == suffix
  }

  /** `sep` occurs in `s` starting at index `i`. */
  predicate OccursAt(s: string, sep: string, i: int)
  {
    0 <= i && i + |sep| <= |s| && s[i..i + |sep|] == sep
  }

  predicate Contains(s: string, sub: string)
  {
    exists i :: 0 <= i <= |s| && OccursAt(s, sub, i)
  }

  /** `s.lstrip(chars)`: drops the longest prefix made of `chars`. */
  function LStrip(s: string, chars: set<char>): (r: string)
    ensures |r| <= |s| && r == s[|s| - |r|..]
    ensures forall i :: 0 <= i < |s| - |r| ==> s[i] in chars
    ensures r != [] ==> r[0] !in chars
    decreases |s|
  {
    if s != [] && s[0] in chars then
      var r := LStrip(s[1..], chars);
      assert s[1..][|s| - 1 - |r|..] == s[|s| - |r|..];
      r
    else s
  }

  /** `s.rstrip(chars)`: drops the longest suffix made of `chars`. */
  function RStrip(s: string, chars: set<char>): (r: string)
    ensures |r| <= |s| && r == s[..|r|]
    ensures forall i :: |r| <= i < |s| ==> s[i] in chars
    ensures r != [] ==> r[|r| - 1] !in chars
    decreases |s|
  {
    if s != [] && s[|s| - 1] in chars then
      var r := RStrip(s[..|s| - 1], chars);
      assert s[..|s| - 1][..|r|] == s[..|r|];
      r
    else s
  }

  /** How many characters `StripChars` removes at the front. */
  function StripOffset(s: string, chars: set<char>): nat
  {
    |s| - |LStrip(s, chars)|
  }

  /** `s.strip(chars)`: every leading and every trailing character that is in
      `chars` is removed (any number of them, not just one layer); the
      interior is kept unchanged. */
  function StripChars(s: string, chars: set<char>): (r: string)
    ensures StripOffset(s, chars) + |r| <= |s|
    ensures r == s[StripOffset(s, chars)..StripOffset(s, chars) + |r|]
    ensures forall i :: 0 <= i < StripOffset(s, chars) ==> s[i] in chars
    ensures forall i :: StripOffset(s, chars) + |r| <= i < |s| ==> s[i] in chars
    ensures r != [] ==> r[0] !in chars && r[|r| - 1] !in chars
  {
    RStrip(LStrip(s, chars), chars)
  }

  /** `s.strip()`: removes leading and trailing whitespace. */
  function Strip(s: string): string
  {
    StripChars(s, Whitespace)
  }

  /** `strip(chars)` is determined by any split of `s` into a prefix and a
      suffix made of `chars` around a core that neither starts nor ends with
      one of them. */
  lemma StripUnique(s: string, a: string, r: string, b: string, chars: set<char>)
    requires s == a + r + b && AllIn(a, chars) && AllIn(b, chars)
    requires r != [] ==> r[0] !in chars && r[|r| - 1] !in chars
    ensures StripChars(s, chars) == r
  {
    var t := StripChars(s, chars);
    var o := StripOffset(s, chars);
    if r == [] {
      assert AllIn(s, chars) by {
        forall i | 0 <= i < |s| ensures s[i] in chars {
          if i >= |a| { assert s[i] == b[i - |a|]; }
        }
      }
      StripAllIn(s, chars);
    } else {
      assert s[|a|] == r[0];
      assert s[|a| + |r| - 1] == r[|r| - 1];
      assert o == |a|;
      assert o + |t| == |a| + |r|;
      assert s[|a|..|a| + |r|] == r;
    }
  }

  /** Whitespace added around a string does not change what `strip()`
      leaves of it. */
  lemma StripPadded(w1: string, p: string, w2: string)
    requires AllIn(w1, Whitespace) && AllIn(w2, Whitespace)
    ensures Strip(w1 + p + w2) == Strip(p)
  {
    var r := Strip(p);
    var a, b := StripParts(p, Whitespace);
    AllInConcat(w1, a, Whitespace);
    AllInConcat(b, w2, Whitespace);
    Regroup(w1, a, r, b, w2);
    StripUnique(w1 + p + w2, w1 + a, r, b + w2, Whitespace);
  }

  /** Leading whitespace does not change `strip()`. */
  lemma StripPaddedFront(w: string, p: string)
    requires AllIn(w, Whitespace)
    ensures Strip(w + p) == Strip(p)
  {
    var r := Strip(p);
    var a, b := StripParts(p, Whitespace);
    AllInConcat(w, a, Whitespace);
    RegroupFront(w, p, a, r, b);
    StripUnique(w + p, w + a, r, b, Whitespace);
  }

  /** Trailing whitespace does not change `strip()`. */
  lemma StripPaddedBack(p: string, w: string)
    requires AllIn(w, Whitespace)
    ensures Strip(p + w) == Strip(p)
  {
    var r := Strip(p);
    var a, b := StripParts(p, Whitespace);
    AllInConcat(b, w, Whitespace);
    RegroupBack(p, w, a, r, b);
    StripUnique(p + w, a, r, b + w, Whitespace);
  }

  /** What `strip(chars)` removes at either end. */
  lemma StripParts(s: string, chars: set<char>) returns (a: string, b: string)
    ensures s == a + StripChars(s, chars) + b && AllIn(a, chars) && AllIn(b, chars)
  {
    var r := StripChars(s, chars);
    var o := StripOffset(s, chars);
    a, b := s[..o], s[o + |r|..];
    Around(s, o, |r|);
    forall i | 0 <= i < |a| ensures a[i] in chars {
      assert a[i] == s[i];
    }
    forall i | 0 <= i < |b| ensures b[i] in chars {
      assert b[i] == s[o + |r| + i];
    }
  }

  lemma RegroupFront(w: string, p: string, a: string, r: string, b: string)
    requires p == a + r + b
    ensures w + p == (w + a) + r + b
  {
  }

  lemma RegroupBack(p: string, w: string, a: string, r: string, b: string)
    requires p == a + r + b
    ensures p + w == a + r + (b + w)
  {
  }

  lemma Regroup(w1: string, a: string, r: string, b: string, w2: string)
    ensures w1 + (a + r + b) + w2 == (w1 + a) + r + (b + w2)
  {
  }

  lemma AllInConcat(x: string, y: string, chars: set<char>)
    requires AllIn(x, chars) && AllIn(y, chars)
    ensures AllIn(x + y, chars)
  {
    forall i | |x| <= i < |x + y| ensures (x + y)[i] in chars {
      assert (x + y)[i] == y[i - |x|];
    }
  }

  /** `s.find(sep)`: the lowest index at which `sep` occurs, or -1. */
  function Find(s: string, sep: string): (r: int)
    requires sep != []
    ensures r == -1 || OccursAt(s, sep, r)
    decreases |s|
  {
    if |s| < |sep| then -1
    else if s[..|sep|] == sep then 0
    else
      var k := Find(s[1..], sep);
      OccursAtTail(s, sep);
      if k < 0 then -1 else k + 1
  }

  /** `Find` reports the first occurrence, and -1 only when there is none. */
  lemma {:induction false} FindFirst(s: string, sep: string)
    requires sep != []
    ensures Find(s, sep) == -1 ==> forall i :: !OccursAt(s, sep, i)
    ensures forall i :: 0 <= i < Find(s, sep) ==> !OccursAt(s, sep, i)
    decreases |s|
  {
    if |s| >= |sep| && s[..|sep|] != sep {
      FindFirst(s[1..], sep);
      OccursAtTail(s, sep);
    }
  }

  lemma OccursAtTail(s: string, sep: string)
    requires s != []
    ensures forall i :: 0 <= i ==> (OccursAt(s[1..], sep, i) <==> OccursAt(s, sep, i + 1))
    ensures forall i :: 1 <= i ==> (OccursAt(s, sep, i) <==> OccursAt(s[1..], sep, i - 1))
  {
    forall i | 0 <= i ensures OccursAt(s[1..], sep, i) <==> OccursAt(s, sep, i + 1) {
      if 0 <= i && i + 1 + |sep| <= |s| {
        assert s[1..][i..i + |sep|] == s[i + 1..i + 1 + |sep|];
      }
    }
  }

  /** `s.split(sep)` for a non-empty separator: the pieces between the
      non-overlapping occurrences of `sep`, scanned from the left. */
  function Split(s: string, sep: string): (r: seq<string>)
    requires sep != []
    ensures |r| >= 1
    decreases |s|
  {
    var i := Find(s, sep);
    if i < 0 then [s] else [s[..i]] + Split(s[i + |sep|..], sep)
  }

  /** No piece of a split contains the separator. */
  lemma {:induction false} SplitPiecesFree(s: string, sep: string)
    requires sep != []
    ensures forall k :: 0 <= k < |Split(s, sep)| ==> !Contains(Split(s, sep)[k], sep)
    decreases |s|
  {
    var i := Find(s, sep);
    FindFirst(s, sep);
    if i < 0 {
      assert !Contains(s, sep);
    } else {
      PrefixBeforeFirst(s, sep, i);
      SplitPiecesFree(s[i + |sep|..], sep);
      PiecesFreeCons(s[..i], Split(s[i + |sep|..], sep), sep);
    }
  }

  lemma PiecesFreeCons(head: string, tail: seq<string>, sep: string)
    requires !Contains(head, sep)
    requires forall k :: 0 <= k < |tail| ==> !Contains(tail[k], sep)
    ensures forall k :: 0 <= k < |[head] + tail| ==> !Contains(([head] + tail)[k], sep)
  {
    forall k | 1 <= k < |[head] + tail| ensures ([head] + tail)[k] == tail[k - 1] { }
  }

  /** The text before the first occurrence of `sep` does not contain it. */
  lemma PrefixBeforeFirst(s: string, sep: string, i: int)
    requires 0 <= i <= |s|
    requires forall j :: 0 <= j < i ==> !OccursAt(s, sep, j)
    requires sep != []
    ensures !Contains(s[..i], sep)
  {
    forall j | OccursAt(s[..i], sep, j) ensures false {
      assert s[j..j + |sep|] == s[..i][j..j + |sep|];
      assert OccursAt(s, sep, j);
    }
  }

  /** `sep.join(xs)`. */
  function Join(xs: seq<string>, sep: string): string
  {
    if xs == [] then ""
    else if |xs| == 1 then xs[0]
    else xs[0] + sep + Join(xs[1..], sep)
  }

  /** Joining a non-empty tail after a head puts one separator between. */
  lemma JoinCons(x: string, tail: seq<string>, sep: string)
    requires tail != []
    ensures Join([x] + tail, sep) == x + sep + Join(tail, sep)
  {
    assert ([x] + tail)[1..] == tail;
  }

  /** Joining two non-empty lists is joining each and putting one separator
      between the two results. */
  lemma {:induction false} JoinAppend(xs: seq<string>, ys: seq<string>, sep: string)
    requires xs != [] && ys != []
    ensures Join(xs + ys, sep) == Join(xs, sep) + sep + Join(ys, sep)
    decreases |xs|
  {
    if |xs| == 1 {
      assert xs + ys == [xs[0]] + ys;
      JoinCons(xs[0], ys, sep);
    } else {
      assert xs + ys == [xs[0]] + (xs[1..] + ys);
      JoinCons(xs[0], xs[1..] + ys, sep);
      JoinAppend(xs[1..], ys, sep);
      assert xs == [xs[0]] + xs[1..];
      JoinCons(xs[0], xs[1..], sep);
    }
  }

  /** Extending the first piece at its front extends the join at its front. */
  lemma JoinPadFirst(xs: seq<string>, w: string, sep: string)
    requires xs != []
    ensures Join([w + xs[0]] + xs[1..], sep) == w + Join(xs, sep)
  {
    if |xs| > 1 {
      JoinCons(w + xs[0], xs[1..], sep);
      JoinCons(xs[0], xs[1..], sep);
      assert xs == [xs[0]] + xs[1..];
    }
  }

  /** Extending the last piece at its end extends the join at its end. */
  lemma JoinPadLast(xs: seq<string>, w: string, sep: string)
    requires xs != []
    ensures Join(xs[..|xs| - 1] + [xs[|xs| - 1] + w], sep) == Join(xs, sep) + w
  {
    var init, last := xs[..|xs| - 1], xs[|xs| - 1];
    if init == [] {
      assert xs == [last];
      assert init + [last + w] == [last + w];
    } else {
      JoinAppend(init, [last + w], sep);
      JoinAppend(init, [last], sep);
      assert xs == init + [last];
    }
  }

  /** Splitting and joining again with the same separator gives back the
      original string. */
  lemma {:induction false} JoinSplit(s: string, sep: string)
    requires sep != []
    ensures Join(Split(s, sep), sep) == s
    decreases |s|
  {
    var i := Find(s, sep);
    if i >= 0 {
      var rest := s[i + |sep|..];
      JoinSplit(rest, sep);
      JoinAround(s, sep, i, Split(rest, sep));
    }
  }

  /** Joining the text before an occurrence of `sep` with pieces that join
      to the text after it gives back the whole string. */
  lemma JoinAround(s: string, sep: string, i: int, tail: seq<string>)
    requires OccursAt(s, sep, i) && tail != []
    requires Join(tail, sep) == s[i + |sep|..]
    ensures Join([s[..i]] + tail, sep) == s
  {
    JoinCons(s[..i], tail, sep);
    Around(s, i, |sep|);
  }

  lemma Around(s: string, i: nat, n: nat)
    requires i + n <= |s|
    ensures s[..i] + s[i..i + n] + s[i + n..] == s
  {
  }

  /** A one-character separator occurs exactly where the character is. */
  lemma OccursAtChar(s: string, c: char)
    ensures forall i :: OccursAt(s, [c], i) <==> 0 <= i < |s| && s[i] == c
  {
    forall i | 0 <= i < |s| ensures s[i..i + 1] == [s[i]] { }
  }

  lemma FindCharAbsent(s: string, c: char)
    requires c !in s
    ensures Find(s, [c]) == -1
  {
    OccursAtChar(s, c);
  }

  lemma FindCharFirst(x: string, c: char, rest: string)
    requires c !in x
    ensures Find(x + [c] + rest, [c]) == |x|
  {
    var s := x + [c] + rest;
    OccursAtChar(s, c);
    FindFirst(s, [c]);
    assert s[|x|] == c;
    forall i | 0 <= i < |x| ensures s[i] != c {
      assert s[i] == x[i];
    }
  }

  /** Joining pieces that do not contain a one-character separator and
      splitting again gives back the pieces. */
  lemma {:induction false} SplitJoin(xs: seq<string>, c: char)
    requires |xs| >= 1
    requires forall k :: 0 <= k < |xs| ==> c !in xs[k]
    ensures Split(Join(xs, [c]), [c]) == xs
    decreases |xs|
  {
    if |xs| == 1 {
      FindCharAbsent(xs[0], c);
    } else {
      var rest := Join(xs[1..], [c]);
      assert Join(xs, [c]) == xs[0] + [c] + rest;
      FindCharFirst(xs[0], c, rest);
      var s := xs[0] + [c] + rest;
      assert s[..|xs[0]|] == xs[0];
      assert s[|xs[0]| + 1..] == rest;
      SplitJoin(xs[1..], c);
      assert xs == [xs[0]] + xs[1..];
    }
  }

  /** A one-character string is contained exactly when the character is. */
  lemma ContainsChar(s: string, c: char)
    ensures Contains(s, [c]) <==> c in s
  {
    OccursAtChar(s, c);
    if c in s {
      var i :| 0 <= i < |s| && s[i] == c;
      assert OccursAt(s, [c], i);
    }
  }

  lemma StripKeepsAbsent(s: string, chars: set<char>, c: char)
    ensures c !in s ==> c !in StripChars(s, chars)
  {
    var r := StripChars(s, chars);
    var o := StripOffset(s, chars);
    forall i | 0 <= i < |r| ensures r[i] == s[o + i] { }
  }

  /** Nothing is stripped from a string that neither starts nor ends with a
      character of the set. */
  lemma StripNoop(s: string, chars: set<char>)
    requires s != [] ==> s[0] !in chars && s[|s| - 1] !in chars
    ensures StripChars(s, chars) == s
  {
  }

  lemma StripAllIn(s: string, chars: set<char>)
    ensures StripChars(s, chars) == [] <==> AllIn(s, chars)
  {
    var r := StripChars(s, chars);
    var o := StripOffset(s, chars);
    if r != [] {
      assert r[0] == s[o];
    }
  }

  /** Splitting on a one-character separator cuts at its first occurrence. */
  lemma SplitAtFirst(x: string, c: char, rest: string)
    requires c !in x
    ensures Split(x + [c] + rest, [c]) == [x] + Split(rest, [c])
  {
    var s := x + [c] + rest;
    FindCharFirst(x, c, rest);
    assert s[..|x|] == x;
    assert s[|x| + 1..] == rest;
  }

  /** A character of a joined list comes from one of the parts or from the
      separator, and every character of every part is in the joined list. */
  lemma {:induction false} JoinMember(xs: seq<string>, sep: string, c: char)
    ensures (exists k :: 0 <= k < |xs| && c in xs[k]) ==> c in Join(xs, sep)
    ensures c in Join(xs, sep) ==> c in sep || exists k :: 0 <= k < |xs| && c in xs[k]
    decreases |xs|
  {
    if |xs| > 1 {
      JoinMember(xs[1..], sep, c);
      if exists k :: 0 <= k < |xs| && c in xs[k] {
        var k :| 0 <= k < |xs| && c in xs[k];
        if k > 0 {
          assert c in xs[1..][k - 1];
        }
      }
      if c in Join(xs[1..], sep) && c !in sep {
        var k :| 0 <= k < |xs[1..]| && c in xs[1..][k];
        assert c in xs[k + 1];
      }
    }
  }
}
