/** The matcher of grep.c against the textbook meaning of regular expressions. */
module Grep {

  // ---------- Regular expressions ----------

  datatype Regex = Eps | Sym(c: char) | Dot | Star(r: Regex) | Seq(l: Regex, r: Regex)

  /** Word w is in the language of r. */
  ghost predicate Lang(r: Regex, w: string)
    decreases r, 0
  {
    match r
    case Eps => w == ""
    case Sym(c) => w == [c]
    case Dot => |w| == 1
    case Star(a) => exists n: nat :: Power(a, n, w)
    case Seq(a, b) => exists k :: 0 <= k <= |w| && Lang(a, w[..k]) && Lang(b, w[k..])
  }

  /** Word w is n words of r in a row. */
  ghost predicate Power(r: Regex, n: nat, w: string)
    decreases r, n
  {
    if n == 0 then w == ""
    else exists k :: 0 <= k <= |w| && Lang(r, w[..k]) && Power(r, n - 1, w[k..])
  }

  // ---------- Pattern syntax ----------

  /** A pattern after any leading ^: an expression, and whether it ends in $. */
  datatype Pattern = Pattern(r: Regex, atEnd: bool)

  function Atom(c: char): Regex {
    if c == '.' then Dot else Sym(c)
  }

  /** Only a $ that is the whole remaining pattern is an anchor. */
  function Parse(re: string): Pattern {
    if re == "" then Pattern(Eps, false)
    else if |re| >= 2 && re[1] == '*' then
      var p := Parse(re[2..]);
      p.(r := Seq(Star(Atom(re[0])), p.r))
    else if re == "$" then Pattern(Eps, true)
    else
      var p := Parse(re[1..]);
      p.(r := Seq(Atom(re[0]), p.r))
  }

  /** Some prefix of text is in the pattern's language, the whole text if it ends in $. */
  ghost predicate MatchesPrefix(p: Pattern, text: string) {
    exists j :: 0 <= j <= |text| && Lang(p.r, text[..j]) && (p.atEnd ==> j == |text|)
  }

  /** What match promises: a matching substring, at the start when the pattern begins with ^. */
  ghost predicate Matches(re: string, text: string) {
    if |re| > 0 && re[0] == '^' then MatchesPrefix(Parse(re[1..]), text)
    else exists i :: 0 <= i <= |text| && MatchesPrefix(Parse(re), text[i..])
  }

  predicate One(c: char, x: char) {
    c == '.' || c == x
  }

  predicate AllOne(c: char, w: string) {
    forall i :: 0 <= i < |w| ==> One(c, w[i])
  }

  // ---------- One step of the matcher ----------

  lemma AtomWord(c: char, w: string)
    ensures Lang(Atom(c), w) <==> |w| == 1 && One(c, w[0])
  {
  }

  lemma {:induction false} PowerOfAtom(c: char, n: nat, w: string)
    ensures Power(Atom(c), n, w) <==> |w| == n && AllOne(c, w)
    decreases n
  {
    if n > 0 {
      if Power(Atom(c), n, w) {
        var k :| 0 <= k <= |w| && Lang(Atom(c), w[..k]) && Power(Atom(c), n - 1, w[k..]);
        AtomWord(c, w[..k]);
        PowerOfAtom(c, n - 1, w[k..]);
        assert forall i :: 1 <= i < |w| ==> w[i] == w[1..][i - 1];
      }
      if |w| == n && AllOne(c, w) {
        AtomWord(c, w[..1]);
        PowerOfAtom(c, n - 1, w[1..]);
      }
    }
  }

  lemma StarOfAtom(c: char, w: string)
    ensures Lang(Star(Atom(c)), w) <==> AllOne(c, w)
  {
    var a := Atom(c);
    forall n: nat
      ensures Power(a, n, w) <==> |w| == n && AllOne(c, w)
    {
      PowerOfAtom(c, n, w);
    }
    assert AllOne(c, w) ==> Power(a, |w|, w);
  }

  lemma SeqSplits(a: Regex, p: Pattern, text: string) returns (k: nat)
    requires MatchesPrefix(p.(r := Seq(a, p.r)), text)
    ensures k <= |text| && Lang(a, text[..k]) && MatchesPrefix(p, text[k..])
  {
    var q := p.(r := Seq(a, p.r));
    var j :| 0 <= j <= |text| && Lang(q.r, text[..j]) && (p.atEnd ==> j == |text|);
    k :| 0 <= k <= j && Lang(a, text[..j][..k]) && Lang(p.r, text[..j][k..]);
    assert text[..j][..k] == text[..k] && text[..j][k..] == text[k..][..j - k];
    hide Lang;
    assert MatchesPrefix(p, text[k..]);
  }

  lemma SeqJoins(a: Regex, p: Pattern, text: string, k: nat)
    requires k <= |text| && Lang(a, text[..k]) && MatchesPrefix(p, text[k..])
    ensures MatchesPrefix(p.(r := Seq(a, p.r)), text)
  {
    var i :| 0 <= i <= |text[k..]| && Lang(p.r, text[k..][..i]) && (p.atEnd ==> i == |text[k..]|);
    var w := text[..k + i];
    assert w[..k] == text[..k] && w[k..] == text[k..][..i];
    assert Lang(Seq(a, p.r), w);
  }

  /** A prefix split for a sequence of two expressions. */
  lemma SeqPrefix(a: Regex, p: Pattern, text: string)
    ensures MatchesPrefix(p.(r := Seq(a, p.r)), text) <==>
            exists k :: 0 <= k <= |text| && Lang(a, text[..k]) && MatchesPrefix(p, text[k..])
  {
    hide Lang, MatchesPrefix;
    if MatchesPrefix(p.(r := Seq(a, p.r)), text) {
      var k := SeqSplits(a, p, text);
    }
    forall k | 0 <= k <= |text| && Lang(a, text[..k]) && MatchesPrefix(p, text[k..])
      ensures MatchesPrefix(p.(r := Seq(a, p.r)), text)
    {
      SeqJoins(a, p, text, k);
    }
  }

  lemma AtomPrefix(c: char, p: Pattern, text: string)
    ensures MatchesPrefix(p.(r := Seq(Atom(c), p.r)), text) <==>
            text != "" && One(c, text[0]) && MatchesPrefix(p, text[1..])
  {
    SeqPrefix(Atom(c), p, text);
    forall k | 0 <= k <= |text|
      ensures Lang(Atom(c), text[..k]) <==> k == 1 && One(c, text[0])
    {
      AtomWord(c, text[..k]);
    }
  }

  lemma StarPrefix(c: char, p: Pattern, text: string)
    ensures MatchesPrefix(p.(r := Seq(Star(Atom(c)), p.r)), text) <==>
            exists k :: 0 <= k <= |text| && AllOne(c, text[..k]) && MatchesPrefix(p, text[k..])
  {
    SeqPrefix(Star(Atom(c)), p, text);
    forall k | 0 <= k <= |text|
      ensures Lang(Star(Atom(c)), text[..k]) <==> AllOne(c, text[..k])
    {
      StarOfAtom(c, text[..k]);
    }
  }

  // ---------- grep.c ----------

  /** The character at p[i] of a NUL-terminated string. */
  function At(s: string, i: nat): char {
    if i < |s| then s[i] else '\0'
  }

  predicate NulFree(s: string) {
    forall i :: 0 <= i < |s| ==> s[i] != '\0'
  }

  method Match(re: string, text: string) returns (found: bool)
    requires NulFree(re) && NulFree(text)
    ensures found <==> Matches(re, text)
  {
    if At(re, 0) == '^' {
      found := MatchHere(re[1..], text);
      return;
    }
    var i := 0;
    while true
      invariant 0 <= i <= |text|
      invariant forall k :: 0 <= k < i ==> !MatchesPrefix(Parse(re), text[k..])
      decreases |text| - i
    {
      found := MatchHere(re, text[i..]);
      if found {
        return;
      }
      if At(text, i) == '\0' {
        return false;
      }
      i := i + 1;
    }
  }

  method MatchHere(re: string, text: string) returns (found: bool)
    requires NulFree(re) && NulFree(text)
    ensures found <==> MatchesPrefix(Parse(re), text)
    decreases |re|, 1
  {
    if At(re, 0) == '\0' {
      assert Lang(Eps, text[..0]);
      return true;
    }
    if At(re, 1) == '*' {
      found := MatchStar(re[0], re[2..], text);
      StarPrefix(re[0], Parse(re[2..]), text);
      return;
    }
    if At(re, 0) == '$' && At(re, 1) == '\0' {
      assert re == "$";
      assert text == "" ==> Lang(Eps, text[..0]);
      return At(text, 0) == '\0';
    }
    AtomPrefix(re[0], Parse(re[1..]), text);
    if At(text, 0) != '\0' && (At(re, 0) == '.' || At(re, 0) == At(text, 0)) {
      found := MatchHere(re[1..], text[1..]);
      return;
    }
    return false;
  }

  /** Some run of characters that c stands for, then a match of re. */
  method MatchStar(c: char, re: string, text: string) returns (found: bool)
    requires NulFree(re) && NulFree(text)
    ensures found <==> exists k :: 0 <= k <= |text| && AllOne(c, text[..k]) && MatchesPrefix(Parse(re), text[k..])
    decreases |re|, 2
  {
    var t := 0;
    while true
      invariant 0 <= t <= |text| && AllOne(c, text[..t])
      invariant forall k :: 0 <= k < t ==> !MatchesPrefix(Parse(re), text[k..])
      decreases |text| - t
    {
      found := MatchHere(re, text[t..]);
      if found {
        return;
      }
      if At(text, t) == '\0' {
        return;
      }
      if !(At(text, t) == c || c == '.') {
        assert forall k :: t < k <= |text| ==> text[..k][t] == text[t] && !AllOne(c, text[..k]);
        return;
      }
      t := t + 1;
    }
  }
}
