/**
 * The whitespace handling shared by the coach-config layer: the `\s` class of
 * JavaScript regular expressions, `String.prototype.trim`, and the
 * `replace(/\s+/g, " ")` collapse. Strings are sequences of code points.
 */
module Text {

  /**
   * ECMAScript WhiteSpace and LineTerminator code points: the characters
   * matched by `\s` and removed by `trim`.
   */
  predicate IsSpace(c: char) {
    var n := c as int;
    || (9 <= n <= 13)
    || n == 0x20 || n == 0xA0 || n == 0x1680
    || (0x2000 <= n <= 0x200A)
    || n == 0x2028 || n == 0x2029 || n == 0x202F || n == 0x205F
    || n == 0x3000 || n == 0xFEFF
  }

  predicate AllSpace(s: string) {
    forall i :: 0 <= i < |s| ==> IsSpace(s[i])
  }

  predicate NoSpace(s: string) {
    forall i :: 0 <= i < |s| ==> !IsSpace(s[i])
  }

  predicate StartsWithSpace(s: string) {
    s != [] && IsSpace(s[0])
  }

  predicate EndsWithSpace(s: string) {
    s != [] && IsSpace(s[|s| - 1])
  }

  /** No two neighbouring characters are both whitespace. */
  predicate NoAdjacentSpaces(s: string) {
    forall i :: 0 < i < |s| ==> !(IsSpace(s[i - 1]) && IsSpace(s[i]))
  }

  /** The only whitespace character that occurs is the plain space. */
  predicate OnlyPlainSpaces(s: string) {
    forall i :: 0 <= i < |s| ==> IsSpace(s[i]) ==> s[i] == ' '
  }

  /** `s.trimStart()`: the suffix left after the leading whitespace run. */
  function TrimStart(s: string): (r: string)
    ensures |r| <= |s|
    ensures !StartsWithSpace(r)
    ensures AllSpace(s[..|s| - |r|])
  {
    if StartsWithSpace(s) then TrimStart(s[1..]) else s
  }

  /** `s.trimEnd()`: the prefix left before the trailing whitespace run. */
  function TrimEnd(s: string): (r: string)
    ensures |r| <= |s|
    ensures !EndsWithSpace(r)
    ensures AllSpace(s[|r|..])
  {
    if EndsWithSpace(s) then TrimEnd(s[..|s| - 1]) else s
  }

  /**
   * What `TrimStart` keeps is a suffix of its input. Stated apart from the
   * function so that its every use does not carry a sequence equality.
   */
  lemma {:induction false} TrimStartSuffix(s: string)
    ensures TrimStart(s) == s[|s| - |TrimStart(s)|..]
  {
    if StartsWithSpace(s) {
      TrimStartSuffix(s[1..]);
    }
  }

  /** What `TrimEnd` keeps is a prefix of its input. */
  lemma {:induction false} TrimEndPrefix(s: string)
    ensures TrimEnd(s) == s[..|TrimEnd(s)|]
  {
    if EndsWithSpace(s) {
      TrimEndPrefix(s[..|s| - 1]);
    }
  }

  /** `s.trim()`; `TrimIsStretch` states which part of `s` it keeps. */
  function Trim(s: string): (r: string)
    ensures !StartsWithSpace(r) && !EndsWithSpace(r)
    ensures |r| <= |s|
  {
    var t := TrimStart(s);
    TrimEndPrefix(t);
    TrimEnd(t)
  }

  /**
   * What `Trim` keeps is the stretch of `s` between a leading and a
   * trailing whitespace run; with `Trim`'s own contract (no whitespace at
   * either end of the result) this fixes the result completely.
   */
  lemma TrimIsStretch(s: string)
    ensures exists k :: 0 <= k && k + |Trim(s)| <= |s| && Trim(s) == s[k..k + |Trim(s)|]
                        && AllSpace(s[..k]) && AllSpace(s[k + |Trim(s)|..])
  {
    TrimStretch(s);
    var r := Trim(s);
    var k := |s| - |TrimStart(s)|;
    assert 0 <= k && k + |r| <= |s| && r == s[k..k + |r|] && AllSpace(s[..k]) && AllSpace(s[k + |r|..]);
  }

  /** What `Trim` keeps sits right after the leading whitespace run. */
  lemma TrimStretch(s: string)
    ensures var t := TrimStart(s);
      var r := TrimEnd(t);
      var k := |s| - |t|;
      && k + |r| <= |s| && r == s[k..k + |r|] && AllSpace(s[..k]) && AllSpace(s[k + |r|..])
  {
    var t := TrimStart(s);
    var r := TrimEnd(t);
    var k := |s| - |t|;
    assert t == s[k..] by {
      TrimStartSuffix(s);
    }
    assert r == t[..|r|] by {
      TrimEndPrefix(t);
    }
    SliceOfSuffix(s, k, t, |r|);
  }

  /** Cutting a suffix of `s` at `n` cuts `s` at `k + n`. */
  lemma SliceOfSuffix(s: string, k: nat, t: string, n: nat)
    requires k <= |s| && t == s[k..] && n <= |t|
    ensures t[..n] == s[k..k + n] && t[n..] == s[k + n..]
  {
  }

  /** The text is empty after trimming exactly when it holds only whitespace. */
  lemma TrimEmptyIffAllSpace(s: string)
    ensures Trim(s) == [] <==> AllSpace(s)
  {
    var t := TrimStart(s);
    TrimStartSuffix(s);
    TrimEndPrefix(t);
    assert s == s[..|s| - |t|] + t;
    if Trim(s) == [] {
      assert AllSpace(t[0..]);
    } else {
      assert !AllSpace(t);
    }
  }

  /** The longest prefix that holds no whitespace. */
  function TakeWord(s: string): (w: string)
    ensures |w| <= |s| && w == s[..|w|]
    ensures NoSpace(w)
    ensures |w| == |s| || IsSpace(s[|w|])
  {
    if s != [] && !IsSpace(s[0]) then [s[0]] + TakeWord(s[1..]) else []
  }

  /**
   * `s.replace(/\s+/g, " ")`: every maximal whitespace run becomes one space;
   * `CollapseIsJoinedWords`, `CollapseShape` and `SquishIsJoinedWords` state
   * what comes out.
   */
  function Collapse(s: string): (r: string)
    ensures |r| <= |s|
    ensures r == [] <==> s == []
    decreases |s|
  {
    if s == [] then []
    else if IsSpace(s[0]) then " " + Collapse(TrimStart(s))
    else
      var w := TakeWord(s);
      w + Collapse(s[|w|..])
  }

  /** Non-empty words free of whitespace. */
  predicate WellFormedWords(ws: seq<string>) {
    forall i :: 0 <= i < |ws| ==> ws[i] != [] && NoSpace(ws[i])
  }

  /** The maximal whitespace-free runs of `s`, in order. */
  function Words(s: string): (ws: seq<string>)
    ensures WellFormedWords(ws)
    decreases |s|
  {
    var t := TrimStart(s);
    if t == [] then []
    else
      var w := TakeWord(t);
      var rest := Words(t[|w|..]);
      WellFormedCons(w, rest);
      [w] + rest
  }

  lemma WellFormedCons(w: string, ws: seq<string>)
    requires w != [] && NoSpace(w) && WellFormedWords(ws)
    ensures WellFormedWords([w] + ws)
  {
    var r := [w] + ws;
    assert forall i :: 1 <= i < |r| ==> r[i] == ws[i - 1];
  }

  /** Words separated by single plain spaces. */
  function Join(ws: seq<string>): string {
    if |ws| == 0 then ""
    else if |ws| == 1 then ws[0]
    else ws[0] + " " + Join(ws[1..])
  }

  /** The shape of words joined by single spaces. */
  lemma {:induction false} JoinShape(ws: seq<string>)
    requires WellFormedWords(ws)
    ensures Join(ws) == [] <==> ws == []
    ensures !StartsWithSpace(Join(ws)) && !EndsWithSpace(Join(ws))
    ensures NoAdjacentSpaces(Join(ws))
    ensures OnlyPlainSpaces(Join(ws))
  {
    if |ws| > 1 {
      JoinShape(ws[1..]);
      var rest := Join(ws[1..]);
      var j := ws[0] + " " + rest;
      assert Join(ws) == j;
      forall i | 0 < i < |j|
        ensures !(IsSpace(j[i - 1]) && IsSpace(j[i]))
      {
        if i > |ws[0]| + 1 {
          assert j[i - 1] == rest[i - 1 - |ws[0]| - 1] && j[i] == rest[i - |ws[0]| - 1];
        }
      }
      forall i | 0 <= i < |j| && IsSpace(j[i])
        ensures j[i] == ' '
      {
        if i > |ws[0]| {
          assert j[i] == rest[i - |ws[0]| - 1];
        }
      }
    }
  }

  /** Joining a further word in front. */
  lemma JoinCons(w: string, ws: seq<string>)
    requires ws != []
    ensures Join([w] + ws) == w + " " + Join(ws)
  {
    assert ([w] + ws)[1..] == ws;
  }

  /** Regrouping four pieces of text; a step the solver does not find alone inside larger proofs. */
  lemma Regroup(a: string, b: string, c: string, d: string)
    ensures a + (b + (c + d)) == (a + b + c) + d
  {
  }

  lemma TrimStartKeeps(u: string)
    requires !StartsWithSpace(u)
    ensures TrimStart(u) == u
  {
  }

  /** Leading whitespace does not change the words. */
  lemma WordsSkipSpaces(s: string)
    ensures Words(s) == Words(TrimStart(s))
  {
    TrimStartKeeps(TrimStart(s));
  }

  lemma WordsOfWord(t: string)
    requires t != [] && !StartsWithSpace(t)
    ensures Words(t) == [TakeWord(t)] + Words(t[|TakeWord(t)|..])
  {
    TrimStartKeeps(t);
  }

  lemma CollapseOfWord(t: string)
    requires t != [] && !StartsWithSpace(t)
    ensures Collapse(t) == TakeWord(t) + Collapse(t[|TakeWord(t)|..])
  {
  }

  lemma CollapseOfSpace(s: string)
    requires StartsWithSpace(s)
    ensures Collapse(s) == " " + Collapse(TrimStart(s))
  {
  }

  /** The trailing space `Collapse` leaves when the text ends in whitespace. */
  function Tail(t: string): string {
    if EndsWithSpace(t) then " " else ""
  }

  /** Text that is one word and nothing else. */
  lemma CollapseSingleWord(t: string)
    requires t != [] && !StartsWithSpace(t) && TakeWord(t) == t
    ensures Collapse(t) == Join(Words(t)) + Tail(t)
  {
    WordsOfWord(t);
    CollapseOfWord(t);
    assert t[|t|..] == [];
    assert Words(t) == [t];
  }

  /** A non-empty suffix of a suffix ends like the whole text. */
  lemma SuffixTail(t: string, rest: string, u: string)
    requires |rest| <= |t| && rest == t[|t| - |rest|..]
    requires |u| <= |rest| && u == rest[|rest| - |u|..]
    requires u != []
    ensures Tail(t) == Tail(u)
  {
    assert u[|u| - 1] == rest[|rest| - 1] == t[|t| - 1];
  }

  /** What follows the first word, when anything does, starts with whitespace. */
  lemma AfterWord(t: string)
    requires TakeWord(t) != t
    ensures StartsWithSpace(t[|TakeWord(t)|..])
  {
    var w := TakeWord(t);
    assert t[|w|..][0] == t[|w|];
  }

  /** Text that trims to nothing is whitespace only, so it ends in whitespace. */
  lemma TrimStartEmpty(s: string)
    requires s != [] && TrimStart(s) == []
    ensures Tail(s) == " "
  {
    assert s[..|s| - 0] == s;
    assert IsSpace(s[|s| - 1]);
  }

  /** Text that is one word followed by whitespace only. */
  lemma CollapseWordThenSpace(t: string)
    requires t != [] && !StartsWithSpace(t)
    requires TakeWord(t) != t && TrimStart(t[|TakeWord(t)|..]) == []
    ensures Collapse(t) == Join(Words(t)) + Tail(t)
  {
    var w := TakeWord(t);
    CollapseWordThenSpaceText(t);
    WordsWordThenSpace(t);
    assert Tail(t) == " " by {
      var rest := t[|w|..];
      TrimStartEmpty(rest);
      SuffixTail(t, rest, rest);
    }
    assert Join([w]) == w;
  }

  lemma CollapseWordThenSpaceText(t: string)
    requires t != [] && !StartsWithSpace(t)
    requires TakeWord(t) != t && TrimStart(t[|TakeWord(t)|..]) == []
    ensures Collapse(t) == TakeWord(t) + " "
  {
    var w := TakeWord(t);
    var rest := t[|w|..];
    AfterWord(t);
    CollapseOfWord(t);
    CollapseOfSpace(rest);
    assert Collapse([]) == [];
    assert " " + [] == " ";
  }

  lemma WordsWordThenSpace(t: string)
    requires t != [] && !StartsWithSpace(t)
    requires TakeWord(t) != t && TrimStart(t[|TakeWord(t)|..]) == []
    ensures Words(t) == [TakeWord(t)]
  {
    var w := TakeWord(t);
    var rest := t[|w|..];
    WordsOfWord(t);
    WordsSkipSpaces(rest);
    assert Words([]) == [];
    assert [w] + [] == [w];
  }

  /** Text that is one word, whitespace, and more text starting with a word. */
  lemma CollapseWordStep(t: string, u: string)
    requires t != [] && !StartsWithSpace(t)
    requires TakeWord(t) != t && u == TrimStart(t[|TakeWord(t)|..]) && u != []
    requires Collapse(u) == Join(Words(u)) + Tail(u)
    ensures Collapse(t) == Join(Words(t)) + Tail(t)
  {
    var w := TakeWord(t);
    var rest := t[|w|..];
    var ws := Words(u);
    assert Words(t) == [w] + ws by {
      WordsOfWord(t);
      WordsSkipSpaces(rest);
    }
    assert Join([w] + ws) == w + " " + Join(ws) by {
      WordsOfWord(u);
      JoinCons(w, ws);
    }
    calc {
      Collapse(t);
    == { CollapseOfWord(t); }
      w + Collapse(rest);
    == { AfterWord(t); CollapseOfSpace(rest); }
      w + (" " + Collapse(u));
      w + (" " + (Join(ws) + Tail(u)));
    == { Regroup(w, " ", Join(ws), Tail(u)); }
      (w + " " + Join(ws)) + Tail(u);
      Join(Words(t)) + Tail(u);
    == { TrimStartSuffix(rest); SuffixTail(t, rest, u); }
      Join(Words(t)) + Tail(t);
    }
  }

  /** Text that is empty or starts with a non-space character collapses to its words plus one space if it ends in whitespace. */
  lemma {:induction false} CollapseFromWord(t: string)
    requires !StartsWithSpace(t)
    ensures Collapse(t) == Join(Words(t)) + Tail(t)
    decreases |t|
  {
    if t != [] {
      var w := TakeWord(t);
      if w == t {
        CollapseSingleWord(t);
      } else {
        var u := TrimStart(t[|w|..]);
        if u == [] {
          CollapseWordThenSpace(t);
        } else {
          CollapseFromWord(u);
          CollapseWordStep(t, u);
        }
      }
    }
  }

  /** The leading space `Collapse` leaves when the text starts with whitespace. */
  function Lead(t: string): string {
    if StartsWithSpace(t) then " " else ""
  }

  /**
   * What `Collapse` makes of any text: whitespace only becomes one space (or
   * stays empty); otherwise the words joined by single spaces, with one space
   * in front when the text starts with whitespace and one behind when it ends
   * with whitespace.
   */
  lemma CollapseIsJoinedWords(s: string)
    ensures Words(s) == [] ==> Collapse(s) == (if s == [] then "" else " ")
    ensures Words(s) != [] ==> Collapse(s) == Lead(s) + Join(Words(s)) + Tail(s)
  {
    if StartsWithSpace(s) {
      CollapseLeadingSpace(s);
    } else if s != [] {
      CollapseLeadingWord(s);
      assert Lead(s) + Join(Words(s)) == Join(Words(s));
    }
  }

  lemma CollapseLeadingWord(s: string)
    requires s != [] && !StartsWithSpace(s)
    ensures Words(s) != []
    ensures Collapse(s) == Join(Words(s)) + Tail(s)
  {
    WordsOfWord(s);
    CollapseFromWord(s);
  }

  lemma CollapseLeadingSpace(s: string)
    requires StartsWithSpace(s)
    ensures Words(s) == [] ==> Collapse(s) == " "
    ensures Words(s) != [] ==> Collapse(s) == " " + Join(Words(s)) + Tail(s)
  {
    var u := TrimStart(s);
    assert Words(s) == Words(u) by {
      WordsSkipSpaces(s);
    }
    assert Collapse(s) == " " + Collapse(u) by {
      CollapseOfSpace(s);
    }
    if u != [] {
      var j, tl := Join(Words(u)), Tail(u);
      assert Words(u) != [] by {
        WordsOfWord(u);
      }
      assert Collapse(u) == j + tl by {
        CollapseFromWord(u);
      }
      assert tl == Tail(s) by {
        TrimStartSuffix(s);
        SuffixTail(s, u, u);
      }
      assert " " + (j + tl) == " " + j + tl;
    }
  }

  /**
   * Collapsed text has no two neighbouring whitespace characters, and the
   * only whitespace left in it is the plain space.
   */
  lemma CollapseShape(s: string)
    ensures NoAdjacentSpaces(Collapse(s)) && OnlyPlainSpaces(Collapse(s))
  {
    if StartsWithSpace(s) {
      CollapseShapeSpace(s);
    } else if s != [] {
      CollapseShapeWord(s);
    }
  }

  lemma CollapseShapeWord(s: string)
    requires s != [] && !StartsWithSpace(s)
    ensures NoAdjacentSpaces(Collapse(s)) && OnlyPlainSpaces(Collapse(s))
  {
    var x, tail := Join(Words(s)), Tail(s);
    assert Collapse(s) == "" + x + tail by {
      CollapseFromWord(s);
    }
    assert x != [] && !StartsWithSpace(x) && !EndsWithSpace(x) && NoAdjacentSpaces(x) && OnlyPlainSpaces(x) by {
      WordsOfWord(s);
      JoinShape(Words(s));
    }
    PadShape("", x, tail);
  }

  lemma CollapseShapeSpace(s: string)
    requires StartsWithSpace(s)
    ensures NoAdjacentSpaces(Collapse(s)) && OnlyPlainSpaces(Collapse(s))
  {
    var u := TrimStart(s);
    CollapseOfSpace(s);
    if u != [] {
      CollapseShapeWord(u);
      assert !StartsWithSpace(Collapse(u)) by {
        CollapseOfWord(u);
        assert Collapse(u)[0] == TakeWord(u)[0];
      }
      SpaceInFront(Collapse(u));
    }
  }

  /** One space in front of text that does not start with whitespace creates no run of whitespace. */
  lemma SpaceInFront(x: string)
    requires !StartsWithSpace(x) && NoAdjacentSpaces(x) && OnlyPlainSpaces(x)
    ensures NoAdjacentSpaces(" " + x) && OnlyPlainSpaces(" " + x)
  {
    var y := " " + x;
    assert forall i :: 1 <= i < |y| ==> y[i] == x[i - 1];
  }

  /** At most one space on either side of tidy text creates no run of whitespace. */
  lemma PadShape(pre: string, x: string, post: string)
    requires pre == "" || pre == " "
    requires post == "" || post == " "
    requires x != [] && !StartsWithSpace(x) && !EndsWithSpace(x)
    requires NoAdjacentSpaces(x) && OnlyPlainSpaces(x)
    ensures NoAdjacentSpaces(pre + x + post) && OnlyPlainSpaces(pre + x + post)
  {
    var y := pre + x + post;
    assert forall i :: |pre| <= i < |pre| + |x| ==> y[i] == x[i - |pre|];
    forall i | 0 < i < |y|
      ensures !(IsSpace(y[i - 1]) && IsSpace(y[i]))
    {
      if i == |pre| {
        assert y[i] == x[0];
      } else if i == |pre| + |x| {
        assert y[i - 1] == x[|x| - 1];
      }
    }
  }

  /**
   * Collapsing whitespace runs and then trimming gives exactly the words of
   * the text joined by single spaces.
   */
  lemma SquishIsJoinedWords(s: string)
    ensures Trim(Collapse(s)) == Join(Words(s))
  {
    if StartsWithSpace(s) {
      SquishLeadingSpace(s);
    } else if s != [] {
      SquishFromWord(s);
    }
  }

  lemma SquishLeadingSpace(s: string)
    requires StartsWithSpace(s)
    ensures Trim(Collapse(s)) == Join(Words(s))
  {
    var u := TrimStart(s);
    WordsSkipSpaces(s);
    CollapseOfSpace(s);
    CollapseFromWord(u);
    if u == [] {
      assert Collapse(s) == " ";
      assert Words(s) == [];
      TrimSingleSpace();
    } else {
      var ws := Words(u);
      WordsOfWord(u);
      JoinShape(ws);
      TrimLeadingPad(Join(ws), Tail(u));
    }
  }

  lemma SquishFromWord(s: string)
    requires s != [] && !StartsWithSpace(s)
    ensures Trim(Collapse(s)) == Join(Words(s))
  {
    var ws := Words(s);
    CollapseFromWord(s);
    WordsOfWord(s);
    JoinShape(ws);
    TrimPadded(Join(ws), Tail(s));
  }

  lemma TrimSingleSpace()
    ensures Trim(" ") == []
  {
    assert TrimStart(" ") == TrimStart(" "[1..]);
  }

  /** Trimming removes one trailing space of padding after joined words. */
  lemma TrimPadded(j: string, tail: string)
    requires j != [] && !StartsWithSpace(j) && !EndsWithSpace(j)
    requires tail == "" || tail == " "
    ensures Trim(j + tail) == j
  {
    var x := j + tail;
    TrimStartKeeps(x);
    if tail != [] {
      assert x[..|x| - 1] == j;
      assert TrimEnd(x) == TrimEnd(j);
    }
  }

  /** Trimming removes one space of padding on either side of joined words. */
  lemma TrimLeadingPad(j: string, tail: string)
    requires j != [] && !StartsWithSpace(j) && !EndsWithSpace(j)
    requires tail == "" || tail == " "
    ensures Trim(" " + (j + tail)) == j
  {
    var x := j + tail;
    assert (" " + x)[1..] == x;
    assert TrimStart(" " + x) == TrimStart(x);
    TrimPadded(j, tail);
  }

  /** Every prefix of joined words keeps their shape at the front and inside. */
  lemma PrefixShape(j: string, n: nat)
    requires n <= |j|
    requires !StartsWithSpace(j) && NoAdjacentSpaces(j) && OnlyPlainSpaces(j)
    ensures !StartsWithSpace(j[..n]) && NoAdjacentSpaces(j[..n]) && OnlyPlainSpaces(j[..n])
  {
    var p := j[..n];
    assert forall i :: 0 <= i < n ==> p[i] == j[i];
  }

  /**
   * Collapse, trim, then keep at most `max` characters (`slice(0, max)`). The
   * result is a prefix of the words joined by single spaces, so it has no
   * leading whitespace, no two adjacent whitespace characters, and no
   * whitespace other than the plain space; it is the whole joined text when
   * that fits.
   */
  function Normalize(s: string, max: nat): (r: string)
    ensures |r| <= max && |r| <= |Join(Words(s))|
    ensures r == Join(Words(s))[..|r|]
    ensures |Join(Words(s))| <= max ==> r == Join(Words(s))
    ensures |Join(Words(s))| > max ==> |r| == max
    ensures !StartsWithSpace(r) && NoAdjacentSpaces(r) && OnlyPlainSpaces(r)
  {
    var squished := Trim(Collapse(s));
    var n := if |squished| <= max then |squished| else max;
    SquishIsJoinedWords(s);
    JoinShape(Words(s));
    PrefixShape(squished, n);
    squished[..n]
  }

  /** The first word of a word followed by whitespace or nothing is that word. */
  lemma {:induction false} TakeWordOfWord(w: string, rest: string)
    requires NoSpace(w) && !(rest != [] && !IsSpace(rest[0]))
    ensures TakeWord(w + rest) == w
    decreases |w|
  {
    if w == [] {
      assert w + rest == rest;
    } else {
      assert (w + rest)[1..] == w[1..] + rest;
      TakeWordOfWord(w[1..], rest);
      assert w == [w[0]] + w[1..];
    }
  }

  /** A single word is its own only word. */
  lemma WordsOfSingle(w: string)
    requires w != [] && NoSpace(w)
    ensures Words(w) == [w]
  {
    TakeWordOfWord(w, []);
    assert w + [] == w;
    WordsOfWord(w);
    assert w[|w|..] == [];
  }

  /** A word, one space, then text not starting with whitespace. */
  lemma WordsOfWordSpace(w: string, rest: string)
    requires w != [] && NoSpace(w) && !StartsWithSpace(rest)
    ensures Words(w + (" " + rest)) == [w] + Words(rest)
  {
    var j := w + (" " + rest);
    TakeWordOfWord(w, " " + rest);
    WordsOfWord(j);
    assert j[|w|..] == " " + rest;
    WordsSkipSpaces(" " + rest);
    assert TrimStart(" " + rest) == TrimStart(rest);
    TrimStartKeeps(rest);
  }

  /** Joining one more word in front adds exactly that word to the split. */
  lemma WordsJoinStep(ws: seq<string>)
    requires |ws| > 1 && WellFormedWords(ws)
    ensures Words(Join(ws)) == [ws[0]] + Words(Join(ws[1..]))
  {
    var w := ws[0];
    var rest := Join(ws[1..]);
    assert !StartsWithSpace(rest) by {
      assert WellFormedWords(ws[1..]);
      JoinShape(ws[1..]);
    }
    assert Join(ws) == w + (" " + rest);
    WordsOfWordSpace(w, rest);
  }

  /** One more word in front of words that already split back. */
  lemma WordsOfJoinCons(ws: seq<string>)
    requires |ws| > 1 && WellFormedWords(ws)
    requires Words(Join(ws[1..])) == ws[1..]
    ensures Words(Join(ws)) == ws
  {
    WordsJoinStep(ws);
    assert [ws[0]] + ws[1..] == ws;
  }

  /** Splitting joined words gives the words back. */
  lemma {:induction false} WordsOfJoin(ws: seq<string>)
    requires WellFormedWords(ws)
    ensures Words(Join(ws)) == ws
  {
    if |ws| == 1 {
      WordsOfSingle(ws[0]);
    } else if |ws| > 1 {
      assert WellFormedWords(ws[1..]);
      WordsOfJoin(ws[1..]);
      WordsOfJoinCons(ws);
    }
  }

  /** Text short enough not to be cut keeps its words through `Normalize`. */
  lemma NormalizeKeepsWords(s: string, max: nat)
    requires |Join(Words(s))| <= max
    ensures Words(Normalize(s, max)) == Words(s)
  {
    WordsOfJoin(Words(s));
  }

  /** `Normalize` sees only the words of its input: texts that differ only in whitespace normalize alike. */
  lemma NormalizeSeesOnlyWords(s: string, t: string, max: nat)
    requires Words(s) == Words(t)
    ensures Normalize(s, max) == Normalize(t, max)
  {
    var j := Join(Words(s));
    var a := Normalize(s, max);
    var b := Normalize(t, max);
    assert |a| == |b|;
    assert a == j[..|a|] && b == j[..|b|];
  }
}
