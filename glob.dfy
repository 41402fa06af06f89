// Glob compilation. The script escapes every regular-expression
// metacharacter except `*`, then rewrites `**/`, `**` and `*` in three
// ordered whole-string passes and anchors the result at both ends. Here the
// compiled form is a token sequence: an escaped character is a `Lit`, and
// the three rewrite passes are three passes over the token sequence with the
// same leftmost, non-overlapping scanning. `Matches` is the anchored
// (whole-path) matching of the compiled regular expression.
module Glob {

  datatype Token =
    | Lit(c: char)      // an escaped character: matches itself
    | Star              // `[^/]*`
    | DoubleStar        // `.*`
    | DoubleStarSlash   // `(.*/)?`

  /** The token sequence before any rewrite: every character, escaped, stands for itself. */
  function Literals(s: string): (t: seq<Token>)
    ensures |t| == |s|
  {
    if s == [] then [] else [Lit(s[0])] + Literals(s[1..])
  }

  lemma {:induction false} LiteralsAt(s: string)
    ensures forall k :: 0 <= k < |s| ==> Literals(s)[k] == Lit(s[k])
  {
    if s != [] {
      LiteralsAt(s[1..]);
    }
  }

  function TokenText(x: Token): string {
    match x
    case Lit(c) => [c]
    case Star => "*"
    case DoubleStar => "**"
    case DoubleStarSlash => "**/"
  }

  /** The glob text a token sequence stands for. */
  function Spell(t: seq<Token>): string {
    if t == [] then [] else TokenText(t[0]) + Spell(t[1..])
  }

  lemma {:induction false} SpellAppend(a: seq<Token>, b: seq<Token>)
    ensures Spell(a + b) == Spell(a) + Spell(b)
  {
    if a == [] {
      assert a + b == b;
    } else {
      assert (a + b)[1..] == a[1..] + b;
      SpellAppend(a[1..], b);
    }
  }

  lemma {:induction false} SpellLiterals(s: string)
    ensures Spell(Literals(s)) == s
  {
    if s != [] {
      SpellLiterals(s[1..]);
    }
  }

  predicate StartsDoubleStarSlash(t: seq<Token>) {
    |t| >= 3 && t[0] == Lit('*') && t[1] == Lit('*') && t[2] == Lit('/')
  }

  predicate StartsDoubleStar(t: seq<Token>) {
    |t| >= 2 && t[0] == Lit('*') && t[1] == Lit('*')
  }

  /** First pass, `.replace(/\*\*\//g, …)`: every `**` followed by `/`, leftmost first, without overlap. */
  function RewriteDoubleStarSlash(t: seq<Token>): seq<Token> {
    if StartsDoubleStarSlash(t) then [DoubleStarSlash] + RewriteDoubleStarSlash(t[3..])
    else if t == [] then []
    else [t[0]] + RewriteDoubleStarSlash(t[1..])
  }

  // Second pass, `.replace(/\*\*/g, …)`: every remaining `**`, leftmost first, without overlap.
  function RewriteDoubleStar(t: seq<Token>): seq<Token> {
    if StartsDoubleStar(t) then [DoubleStar] + RewriteDoubleStar(t[2..])
    else if t == [] then []
    else [t[0]] + RewriteDoubleStar(t[1..])
  }

  // Third pass, `.replace(/\*/g, '[^/]*')`: every remaining `*`.
  function RewriteStar(t: seq<Token>): (r: seq<Token>)
    ensures |r| == |t|
    ensures forall k :: 0 <= k < |t| ==> r[k] == if t[k] == Lit('*') then Star else t[k]
  {
    if t == [] then [] else [if t[0] == Lit('*') then Star else t[0]] + RewriteStar(t[1..])
  }

  /** `toRegex(glob)` as a token sequence: escape, then the three passes in their order. */
  function Compile(glob: string): seq<Token> {
    RewriteStar(RewriteDoubleStar(RewriteDoubleStarSlash(Literals(glob))))
  }

  // ---------------------------------------------------------------------
  // The compiled form spells the glob back and is in canonical form.

  /** Each pass only regroups characters: the spelling is unchanged, and the
      only token a pass brings in is its own wildcard. */
  lemma {:induction false} FirstPassKeepsSpelling(t: seq<Token>)
    ensures Spell(RewriteDoubleStarSlash(t)) == Spell(t)
    ensures forall x :: x in RewriteDoubleStarSlash(t) ==> x in t || x == DoubleStarSlash
  {
    if StartsDoubleStarSlash(t) {
      var rest := t[3..];
      FirstPassKeepsSpelling(rest);
      assert t[1..][1..] == t[2..] && t[2..][1..] == rest;
      assert Spell(t[2..]) == "/" + Spell(rest);
      assert Spell(t[1..]) == "*" + Spell(t[2..]);
      assert Spell(t) == "**/" + Spell(rest);
      var r := RewriteDoubleStarSlash(rest);
      assert RewriteDoubleStarSlash(t) == [DoubleStarSlash] + r;
      assert ([DoubleStarSlash] + r)[1..] == r;
      assert Spell([DoubleStarSlash] + r) == "**/" + Spell(r);
      forall x | x in [DoubleStarSlash] + r ensures x in t || x == DoubleStarSlash {
        if x != DoubleStarSlash {
          assert x in r;
          assert x in rest;
        }
      }
    } else if t != [] {
      FirstPassKeepsSpelling(t[1..]);
    }
  }

  lemma {:induction false} SecondPassKeepsSpelling(t: seq<Token>)
    ensures Spell(RewriteDoubleStar(t)) == Spell(t)
    ensures forall x :: x in RewriteDoubleStar(t) ==> x in t || x == DoubleStar
  {
    if StartsDoubleStar(t) {
      var rest := t[2..];
      SecondPassKeepsSpelling(rest);
      assert t[1..][1..] == rest;
      assert Spell(t[1..]) == "*" + Spell(rest);
      assert Spell(t) == "**" + Spell(rest);
      var r := RewriteDoubleStar(rest);
      assert RewriteDoubleStar(t) == [DoubleStar] + r;
      assert ([DoubleStar] + r)[1..] == r;
      assert Spell([DoubleStar] + r) == "**" + Spell(r);
      forall x | x in [DoubleStar] + r ensures x in t || x == DoubleStar {
        if x != DoubleStar {
          assert x in r;
          assert x in rest;
        }
      }
    } else if t != [] {
      SecondPassKeepsSpelling(t[1..]);
    }
  }

  lemma {:induction false} ThirdPassKeepsSpelling(t: seq<Token>)
    ensures Spell(RewriteStar(t)) == Spell(t)
  {
    if t != [] {
      ThirdPassKeepsSpelling(t[1..]);
    }
  }

  /** Compiling loses nothing: the tokens spell the glob they came from. */
  lemma CompileSpellsGlob(glob: string)
    ensures Spell(Compile(glob)) == glob
  {
    var t1 := RewriteDoubleStarSlash(Literals(glob));
    FirstPassKeepsSpelling(Literals(glob));
    SecondPassKeepsSpelling(t1);
    ThirdPassKeepsSpelling(RewriteDoubleStar(t1));
    SpellLiterals(glob);
  }

  predicate Follows(t: seq<Token>, k: int, a: Token, b: Token) {
    0 <= k && k + 1 < |t| && t[k] == a && t[k + 1] == b
  }

  predicate Follows3(t: seq<Token>, k: int, a: Token, b: Token, c: Token) {
    0 <= k && k + 2 < |t| && t[k] == a && t[k + 1] == b && t[k + 2] == c
  }

  /** The shape the three ordered passes leave behind: no `*` is left literal;
      a `**` is never followed by `/` (that `/` would have been taken by the
      first pass); a `*` is never followed by another `*` or `**`, and a `*`
      followed by `/` never comes right after a `**` (leftmost scanning would
      have paired them differently). */
  ghost predicate Canonical(t: seq<Token>) {
    && Lit('*') !in t
    && (forall k :: !Follows(t, k, DoubleStar, Lit('/')))
    && (forall k :: !Follows(t, k, Star, Star))
    && (forall k :: !Follows(t, k, Star, DoubleStar))
    && (forall k :: !Follows3(t, k, DoubleStar, Star, Lit('/')))
  }

  lemma HeadOfRewriteDoubleStarSlash(t: seq<Token>)
    requires t != []
    ensures RewriteDoubleStarSlash(t) != []
    ensures RewriteDoubleStarSlash(t)[0] == if StartsDoubleStarSlash(t) then DoubleStarSlash else t[0]
  {
  }

  lemma HeadOfRewriteDoubleStar(t: seq<Token>)
    requires t != []
    ensures RewriteDoubleStar(t) != []
    ensures RewriteDoubleStar(t)[0] == if StartsDoubleStar(t) then DoubleStar else t[0]
  {
  }

  /** After the first pass no `*`, `*`, `/` run is left. */
  lemma {:induction false} FirstPassLeavesNoRun(t: seq<Token>)
    ensures forall k :: !Follows3(RewriteDoubleStarSlash(t), k, Lit('*'), Lit('*'), Lit('/'))
  {
    var r := RewriteDoubleStarSlash(t);
    if StartsDoubleStarSlash(t) {
      FirstPassLeavesNoRun(t[3..]);
      var r' := RewriteDoubleStarSlash(t[3..]);
      assert r == [DoubleStarSlash] + r';
      forall k ensures !Follows3(r, k, Lit('*'), Lit('*'), Lit('/')) {
        if k >= 1 {
          assert !Follows3(r', k - 1, Lit('*'), Lit('*'), Lit('/'));
        }
      }
    } else if t != [] {
      var u := t[1..];
      FirstPassLeavesNoRun(u);
      var r' := RewriteDoubleStarSlash(u);
      assert r == [t[0]] + r';
      if u != [] {
        HeadOfRewriteDoubleStarSlash(u);
        if |u| >= 2 && u[0] == Lit('*') && !StartsDoubleStarSlash(u) {
          assert r' == [u[0]] + RewriteDoubleStarSlash(u[1..]);
          HeadOfRewriteDoubleStarSlash(u[1..]);
        }
      }
      forall k ensures !Follows3(r, k, Lit('*'), Lit('*'), Lit('/')) {
        if k >= 1 {
          assert !Follows3(r', k - 1, Lit('*'), Lit('*'), Lit('/'));
        }
      }
    }
  }

  /** What the second pass leaves, given the first pass's output. */
  ghost predicate AfterSecondPass(r: seq<Token>) {
    && (forall k :: !Follows(r, k, Lit('*'), Lit('*')))
    && (forall k :: !Follows(r, k, Lit('*'), DoubleStar))
    && (forall k :: !Follows(r, k, DoubleStar, Lit('/')))
    && (forall k :: !Follows3(r, k, DoubleStar, Lit('*'), Lit('/')))
  }

  lemma {:induction false} SecondPassShape(t: seq<Token>)
    requires DoubleStar !in t
    requires forall k :: !Follows3(t, k, Lit('*'), Lit('*'), Lit('/'))
    ensures AfterSecondPass(RewriteDoubleStar(t))
  {
    var r := RewriteDoubleStar(t);
    if StartsDoubleStar(t) {
      var w := t[2..];
      assert forall k :: !Follows3(w, k, Lit('*'), Lit('*'), Lit('/')) by {
        forall k ensures !Follows3(w, k, Lit('*'), Lit('*'), Lit('/')) {
          assert !Follows3(t, k + 2, Lit('*'), Lit('*'), Lit('/'));
        }
      }
      SecondPassShape(w);
      var r' := RewriteDoubleStar(w);
      assert r == [DoubleStar] + r';
      if w != [] {
        HeadOfRewriteDoubleStar(w);
        assert !Follows3(t, 0, Lit('*'), Lit('*'), Lit('/'));
        if |w| >= 2 && w[0] == Lit('*') && !StartsDoubleStar(w) {
          assert r' == [w[0]] + RewriteDoubleStar(w[1..]);
          HeadOfRewriteDoubleStar(w[1..]);
          assert !Follows3(t, 1, Lit('*'), Lit('*'), Lit('/'));
        }
      }
      forall k ensures !Follows(r, k, Lit('*'), Lit('*')) && !Follows(r, k, Lit('*'), DoubleStar)
        && !Follows(r, k, DoubleStar, Lit('/')) && !Follows3(r, k, DoubleStar, Lit('*'), Lit('/'))
      {
        if k >= 1 {
          assert !Follows(r', k - 1, Lit('*'), Lit('*'));
          assert !Follows(r', k - 1, Lit('*'), DoubleStar);
          assert !Follows(r', k - 1, DoubleStar, Lit('/'));
          assert !Follows3(r', k - 1, DoubleStar, Lit('*'), Lit('/'));
        }
      }
    } else if t != [] {
      var u := t[1..];
      assert forall k :: !Follows3(u, k, Lit('*'), Lit('*'), Lit('/')) by {
        forall k ensures !Follows3(u, k, Lit('*'), Lit('*'), Lit('/')) {
          assert !Follows3(t, k + 1, Lit('*'), Lit('*'), Lit('/'));
        }
      }
      SecondPassShape(u);
      var r' := RewriteDoubleStar(u);
      assert r == [t[0]] + r';
      if u != [] && t[0] == Lit('*') {
        HeadOfRewriteDoubleStar(u);
        assert !StartsDoubleStar(u);
      }
      forall k ensures !Follows(r, k, Lit('*'), Lit('*')) && !Follows(r, k, Lit('*'), DoubleStar)
        && !Follows(r, k, DoubleStar, Lit('/')) && !Follows3(r, k, DoubleStar, Lit('*'), Lit('/'))
      {
        if k >= 1 {
          assert !Follows(r', k - 1, Lit('*'), Lit('*'));
          assert !Follows(r', k - 1, Lit('*'), DoubleStar);
          assert !Follows(r', k - 1, DoubleStar, Lit('/'));
          assert !Follows3(r', k - 1, DoubleStar, Lit('*'), Lit('/'));
        }
      }
    }
  }

  /** The three passes, in their order, leave the compiled glob in canonical form. */
  lemma CompileIsCanonical(glob: string)
    ensures Canonical(Compile(glob))
  {
    var t1 := RewriteDoubleStarSlash(Literals(glob));
    LiteralsAt(glob);
    FirstPassLeavesNoRun(Literals(glob));
    FirstPassKeepsSpelling(Literals(glob));
    assert DoubleStar !in t1 && Star !in t1;
    var t2 := RewriteDoubleStar(t1);
    SecondPassShape(t1);
    SecondPassKeepsSpelling(t1);
    assert Star !in t2;
    var r := RewriteStar(t2);
    forall k ensures !Follows(r, k, DoubleStar, Lit('/')) && !Follows(r, k, Star, Star)
      && !Follows(r, k, Star, DoubleStar) && !Follows3(r, k, DoubleStar, Star, Lit('/'))
    {
      assert !Follows(t2, k, DoubleStar, Lit('/'));
      assert !Follows(t2, k, Lit('*'), Lit('*'));
      assert !Follows(t2, k, Lit('*'), DoubleStar);
      assert !Follows3(t2, k, DoubleStar, Lit('*'), Lit('/'));
    }
  }

  /** The passes touch only `*`: a glob without `*` compiles to its own characters. */
  lemma {:induction false} PassesKeepStarFreeTokens(t: seq<Token>)
    requires Lit('*') !in t
    ensures RewriteDoubleStarSlash(t) == t
    ensures RewriteDoubleStar(t) == t
    ensures RewriteStar(t) == t
  {
    if t != [] {
      PassesKeepStarFreeTokens(t[1..]);
    }
  }

  /** A glob with no two consecutive `*` compiles to literals and `Star` only. */
  lemma {:induction false} PassesKeepSingleStars(t: seq<Token>)
    requires forall k :: !Follows(t, k, Lit('*'), Lit('*'))
    ensures RewriteDoubleStarSlash(t) == t
    ensures RewriteDoubleStar(t) == t
  {
    if t != [] {
      forall k ensures !Follows(t[1..], k, Lit('*'), Lit('*')) {
        assert !Follows(t, k + 1, Lit('*'), Lit('*'));
      }
      assert !Follows(t, 0, Lit('*'), Lit('*'));
      PassesKeepSingleStars(t[1..]);
    }
  }

  // ---------------------------------------------------------------------
  // Matching: the anchored regular expression `^…$` tested against a path.

  /** The characters `.` does not match in a JavaScript regular expression without flags. */
  predicate IsLineTerminator(c: char) {
    c == '\n' || c == '\r' || c == '\U{2028}' || c == '\U{2029}'
  }

  /** `s` is a run `[^/]*` can match: it stays within one path segment. */
  predicate SegmentRun(s: string) {
    forall k :: 0 <= k < |s| ==> s[k] != '/'
  }

  /** `s` is a run `.*` can match. */
  predicate LineRun(s: string) {
    forall k :: 0 <= k < |s| ==> !IsLineTerminator(s[k])
  }

  /** Whether the whole of `p` matches the token sequence (the regex is anchored by `^` and `$`). */
  predicate Matches(t: seq<Token>, p: string)
    decreases |t|, |p|, 1
  {
    if t == [] then p == []
    else match t[0]
      case Lit(c) => p != [] && p[0] == c && Matches(t[1..], p[1..])
      case Star => Matches(t[1..], p) || (p != [] && p[0] != '/' && Matches(t, p[1..]))
      case DoubleStar => Matches(t[1..], p) || (p != [] && !IsLineTerminator(p[0]) && Matches(t, p[1..]))
      case DoubleStarSlash => Matches(t[1..], p) || DirectoryThen(t[1..], p)
  }

  // `.*/` followed by `rest`: the non-empty alternative of `(.*/)?`.
  predicate DirectoryThen(rest: seq<Token>, p: string)
    decreases |rest| + 1, |p|, 0
  {
    p != [] && !IsLineTerminator(p[0]) && ((p[0] == '/' && Matches(rest, p[1..])) || DirectoryThen(rest, p[1..]))
  }

  /** `RegExp.test` of `toRegex(glob)` on a path. */
  predicate GlobMatches(glob: string, path: string) {
    Matches(Compile(glob), path)
  }

  lemma LitSemantics(c: char, rest: seq<Token>, p: string)
    ensures Matches([Lit(c)] + rest, p) <==> p != [] && p[0] == c && Matches(rest, p[1..])
  {
    var t := [Lit(c)] + rest;
    assert t[0] == Lit(c) && t[1..] == rest;
  }

  // Comparing a prefix character by character.
  lemma PrefixStep(s: string, p: string)
    requires s != [] && |s| <= |p|
    ensures p[..|s|] == s <==> p[0] == s[0] && p[1..][..|s| - 1] == s[1..]
  {
    assert p[1..][..|s| - 1] == p[1..|s|];
    assert p[..|s|] == [p[0]] + p[1..|s|];
    assert s == [s[0]] + s[1..];
  }

  /** An escaped literal matches exactly its own character. */
  lemma {:induction false} LiteralsSemantics(s: string, rest: seq<Token>, p: string)
    ensures Matches(Literals(s) + rest, p) <==> |s| <= |p| && p[..|s|] == s && Matches(rest, p[|s|..])
  {
    if s == [] {
      assert Literals(s) + rest == rest;
      assert p[..0] == s && p[0..] == p;
    } else {
      var l := Literals(s[1..]);
      assert Literals(s) + rest == [Lit(s[0])] + (l + rest);
      LitSemantics(s[0], l + rest, p);
      if p != [] {
        LiteralsSemantics(s[1..], rest, p[1..]);
        if |s| <= |p| {
          PrefixStep(s, p);
          assert p[1..][|s| - 1..] == p[|s|..];
        }
      }
    }
  }

  /** `*` matches any run of characters other than `/`, so it never crosses a directory boundary. */
  lemma {:induction false} StarSemantics(rest: seq<Token>, p: string)
    ensures Matches([Star] + rest, p) <==>
      exists k :: 0 <= k <= |p| && SegmentRun(p[..k]) && Matches(rest, p[k..])
    decreases |p|
  {
    var t := [Star] + rest;
    assert t[0] == Star && t[1..] == rest;
    assert p[..0] == [] && p[0..] == p;
    if p != [] {
      StarSemantics(rest, p[1..]);
      if Matches(t, p) && !Matches(rest, p) {
        var k' :| 0 <= k' <= |p| - 1 && SegmentRun(p[1..][..k']) && Matches(rest, p[1..][k'..]);
        assert p[..k' + 1] == [p[0]] + p[1..][..k'];
        assert p[k' + 1..] == p[1..][k'..];
        assert SegmentRun(p[..k' + 1]);
      }
      if exists k :: 0 <= k <= |p| && SegmentRun(p[..k]) && Matches(rest, p[k..]) {
        var k :| 0 <= k <= |p| && SegmentRun(p[..k]) && Matches(rest, p[k..]);
        if k > 0 {
          assert p[1..][..k - 1] == p[1..k];
          assert p[1..][k - 1..] == p[k..];
          assert p[..k][0] == p[0];
          assert SegmentRun(p[1..][..k - 1]);
        }
      }
    }
  }

  /** `**` matches any run of characters, `/` included (but, like `.`, no line terminator). */
  lemma {:induction false} DoubleStarSemantics(rest: seq<Token>, p: string)
    ensures Matches([DoubleStar] + rest, p) <==>
      exists k :: 0 <= k <= |p| && LineRun(p[..k]) && Matches(rest, p[k..])
    decreases |p|
  {
    var t := [DoubleStar] + rest;
    assert t[0] == DoubleStar && t[1..] == rest;
    assert p[..0] == [] && p[0..] == p;
    if p != [] {
      DoubleStarSemantics(rest, p[1..]);
      if Matches(t, p) && !Matches(rest, p) {
        var k' :| 0 <= k' <= |p| - 1 && LineRun(p[1..][..k']) && Matches(rest, p[1..][k'..]);
        assert p[..k' + 1] == [p[0]] + p[1..][..k'];
        assert p[k' + 1..] == p[1..][k'..];
        assert LineRun(p[..k' + 1]);
      }
      if exists k :: 0 <= k <= |p| && LineRun(p[..k]) && Matches(rest, p[k..]) {
        var k :| 0 <= k <= |p| && LineRun(p[..k]) && Matches(rest, p[k..]);
        if k > 0 {
          assert p[1..][..k - 1] == p[1..k];
          assert p[1..][k - 1..] == p[k..];
          assert p[..k][0] == p[0];
          assert LineRun(p[1..][..k - 1]);
        }
      }
    }
  }

  lemma {:induction false} DirectoryThenSound(rest: seq<Token>, p: string) returns (k: nat)
    requires DirectoryThen(rest, p)
    ensures 1 <= k <= |p| && p[k - 1] == '/' && LineRun(p[..k]) && Matches(rest, p[k..])
    decreases |p|
  {
    if p[0] == '/' && Matches(rest, p[1..]) {
      k := 1;
      assert p[..1] == [p[0]];
    } else {
      var k' := DirectoryThenSound(rest, p[1..]);
      k := k' + 1;
      assert p[..k] == [p[0]] + p[1..][..k'];
      assert p[k..] == p[1..][k'..];
    }
  }

  lemma {:induction false} DirectoryThenComplete(rest: seq<Token>, p: string, k: nat)
    requires 1 <= k <= |p| && p[k - 1] == '/' && LineRun(p[..k]) && Matches(rest, p[k..])
    ensures DirectoryThen(rest, p)
    decreases k
  {
    assert p[..k][0] == p[0];
    if k > 1 {
      assert p[1..][..k - 1] == p[1..k];
      assert p[1..][k - 1..] == p[k..];
      assert LineRun(p[1..][..k - 1]);
      DirectoryThenComplete(rest, p[1..], k - 1);
    }
  }

  lemma DirectoryThenSemantics(rest: seq<Token>, p: string)
    ensures DirectoryThen(rest, p) <==>
      exists k :: 1 <= k <= |p| && p[k - 1] == '/' && LineRun(p[..k]) && Matches(rest, p[k..])
  {
    if DirectoryThen(rest, p) {
      var k := DirectoryThenSound(rest, p);
    }
    if exists k :: 1 <= k <= |p| && p[k - 1] == '/' && LineRun(p[..k]) && Matches(rest, p[k..]) {
      var k :| 1 <= k <= |p| && p[k - 1] == '/' && LineRun(p[..k]) && Matches(rest, p[k..]);
      DirectoryThenComplete(rest, p, k);
    }
  }

  // `**/` matches nothing, or any prefix of the path that ends with `/`.
  lemma DoubleStarSlashSemantics(rest: seq<Token>, p: string)
    ensures Matches([DoubleStarSlash] + rest, p) <==>
      Matches(rest, p) ||
      exists k :: 1 <= k <= |p| && p[k - 1] == '/' && LineRun(p[..k]) && Matches(rest, p[k..])
  {
    var t := [DoubleStarSlash] + rest;
    assert t[0] == DoubleStarSlash && t[1..] == rest;
    DirectoryThenSemantics(rest, p);
  }

  // ---------------------------------------------------------------------
  // Consequences for globs.

  /** A glob without `*` matches exactly the identical path and nothing else:
      every other metacharacter is escaped and the expression is anchored. */
  lemma LiteralGlobMatchesOnlyItself(glob: string, path: string)
    requires '*' !in glob
    ensures GlobMatches(glob, path) <==> path == glob
  {
    var t := Literals(glob);
    LiteralsAt(glob);
    assert Lit('*') !in t;
    PassesKeepStarFreeTokens(t);
    assert Compile(glob) == t;
    assert t + [] == t;
    LiteralsSemantics(glob, [], path);
  }

  function SlashCount(s: string): nat {
    if s == [] then 0 else (if s[0] == '/' then 1 else 0) + SlashCount(s[1..])
  }

  lemma {:induction false} SlashCountAppend(a: string, b: string)
    ensures SlashCount(a + b) == SlashCount(a) + SlashCount(b)
  {
    if a == [] {
      assert a + b == b;
    } else {
      assert (a + b)[1..] == a[1..] + b;
      SlashCountAppend(a[1..], b);
    }
  }

  /** Only literals and `*`: a path matching such tokens has exactly their `/` count. */
  lemma {:induction false} SegmentTokensKeepDepth(t: seq<Token>, p: string)
    requires forall k :: 0 <= k < |t| ==> t[k].Lit? || t[k] == Star
    requires Matches(t, p)
    ensures SlashCount(p) == SlashCount(Spell(t))
    decreases |t|, |p|
  {
    if t != [] {
      SpellAppend([t[0]], t[1..]);
      assert [t[0]] + t[1..] == t;
      match t[0]
      case Lit(c) =>
        SegmentTokensKeepDepth(t[1..], p[1..]);
        SlashCountAppend([c], p[1..]);
        assert p == [c] + p[1..];
      case Star =>
        if Matches(t[1..], p) {
          SegmentTokensKeepDepth(t[1..], p);
        } else {
          SegmentTokensKeepDepth(t, p[1..]);
          assert p == [p[0]] + p[1..];
          SlashCountAppend([p[0]], p[1..]);
        }
    }
  }

  /** `*` never crosses a directory boundary: a glob without `**` only matches
      paths with as many `/` as the glob itself. */
  lemma StarStaysInSegment(glob: string, path: string)
    requires forall k :: 0 <= k < |glob| - 1 ==> !(glob[k] == '*' && glob[k + 1] == '*')
    requires GlobMatches(glob, path)
    ensures SlashCount(path) == SlashCount(glob)
  {
    var t := Literals(glob);
    LiteralsAt(glob);
    forall k ensures !Follows(t, k, Lit('*'), Lit('*')) {
      if 0 <= k < |glob| - 1 {
        assert t[k] == Lit(glob[k]) && t[k + 1] == Lit(glob[k + 1]);
      }
    }
    PassesKeepSingleStars(t);
    var r := Compile(glob);
    assert r == RewriteStar(t);
    CompileSpellsGlob(glob);
    SegmentTokensKeepDepth(r, path);
  }

  /** `**` on its own matches every path (that has no line terminator). */
  lemma DoubleStarMatchesEverything(path: string)
    ensures GlobMatches("**", path) <==> LineRun(path)
  {
    assert Literals("**") == [Lit('*'), Lit('*')];
    assert RewriteDoubleStarSlash([Lit('*'), Lit('*')]) == [Lit('*'), Lit('*')];
    assert RewriteDoubleStar([Lit('*'), Lit('*')]) == [DoubleStar];
    assert Compile("**") == [DoubleStar] + [];
    DoubleStarSemantics([], path);
    assert path[..|path|] == path && path[|path|..] == [];
  }

  // ---------------------------------------------------------------------
  // How the passes act on glob text built from pieces.

  lemma {:induction false} LiteralsAppend(a: string, b: string)
    ensures Literals(a + b) == Literals(a) + Literals(b)
  {
    if a != [] {
      assert (a + b)[1..] == a[1..] + b;
      LiteralsAppend(a[1..], b);
    } else {
      assert a + b == b;
    }
  }

  lemma LiteralsAroundStar(a: string, b: string)
    ensures Literals(a + "*" + b) == Literals(a) + ([Lit('*')] + Literals(b))
  {
    LiteralsAppend(a + "*", b);
    LiteralsAppend(a, "*");
    assert Literals("*") == [Lit('*')];
    assert (Literals(a) + [Lit('*')]) + Literals(b) == Literals(a) + ([Lit('*')] + Literals(b));
  }

  // A token other than an escaped `*` passes through the first two passes untouched.
  lemma PassesSkipToken(x: Token, t: seq<Token>)
    requires x != Lit('*')
    ensures RewriteDoubleStarSlash([x] + t) == [x] + RewriteDoubleStarSlash(t)
    ensures RewriteDoubleStar([x] + t) == [x] + RewriteDoubleStar(t)
  {
    assert ([x] + t)[0] == x;
    assert ([x] + t)[1..] == t;
  }

  lemma {:induction false} FirstPassSkipsLiteralPrefix(a: string, t: seq<Token>)
    requires '*' !in a
    ensures RewriteDoubleStarSlash(Literals(a) + t) == Literals(a) + RewriteDoubleStarSlash(t)
  {
    if a != [] {
      var x, l := Lit(a[0]), Literals(a[1..]);
      FirstPassSkipsLiteralPrefix(a[1..], t);
      assert a[0] in a;
      assert Literals(a) == [x] + l;
      assert Literals(a) + t == [x] + (l + t);
      PassesSkipToken(x, l + t);
      assert [x] + (l + RewriteDoubleStarSlash(t)) == Literals(a) + RewriteDoubleStarSlash(t);
    } else {
      assert Literals(a) + t == t;
    }
  }

  lemma {:induction false} SecondPassSkipsLiteralPrefix(a: string, t: seq<Token>)
    requires '*' !in a
    ensures RewriteDoubleStar(Literals(a) + t) == Literals(a) + RewriteDoubleStar(t)
  {
    if a != [] {
      var x, l := Lit(a[0]), Literals(a[1..]);
      SecondPassSkipsLiteralPrefix(a[1..], t);
      assert a[0] in a;
      assert Literals(a) == [x] + l;
      assert Literals(a) + t == [x] + (l + t);
      PassesSkipToken(x, l + t);
      assert [x] + (l + RewriteDoubleStar(t)) == Literals(a) + RewriteDoubleStar(t);
    } else {
      assert Literals(a) + t == t;
    }
  }

  // Characters other than `*` pass through the first two passes untouched.
  lemma PassesSkipLiteralPrefix(a: string, t: seq<Token>)
    requires '*' !in a
    ensures RewriteDoubleStarSlash(Literals(a) + t) == Literals(a) + RewriteDoubleStarSlash(t)
    ensures RewriteDoubleStar(Literals(a) + t) == Literals(a) + RewriteDoubleStar(t)
  {
    FirstPassSkipsLiteralPrefix(a, t);
    SecondPassSkipsLiteralPrefix(a, t);
  }

  lemma StarThenStarFree(b: string)
    requires '*' !in b
    ensures RewriteDoubleStarSlash([Lit('*')] + Literals(b)) == [Lit('*')] + Literals(b)
    ensures RewriteDoubleStar([Lit('*')] + Literals(b)) == [Lit('*')] + Literals(b)
    ensures RewriteStar([Lit('*')] + Literals(b)) == [Star] + Literals(b)
  {
    var l := Literals(b);
    LiteralsAt(b);
    PassesKeepStarFreeTokens(l);
    assert ([Lit('*')] + l)[1..] == l;
  }

  lemma {:induction false} RewriteStarAppend(x: seq<Token>, y: seq<Token>)
    ensures RewriteStar(x + y) == RewriteStar(x) + RewriteStar(y)
  {
    if x == [] {
      assert x + y == y;
    } else {
      assert (x + y)[0] == x[0];
      assert (x + y)[1..] == x[1..] + y;
      RewriteStarAppend(x[1..], y);
    }
  }

  lemma StarFreeUnchangedByRewriteStar(a: string)
    requires '*' !in a
    ensures RewriteStar(Literals(a)) == Literals(a)
  {
    LiteralsAt(a);
    PassesKeepStarFreeTokens(Literals(a));
  }

  // A single `*` between star-free text compiles to one `Star` between literals.
  lemma CompileOneStar(a: string, b: string)
    requires '*' !in a && '*' !in b
    ensures Compile(a + "*" + b) == Literals(a) + ([Star] + Literals(b))
  {
    LiteralsAroundStar(a, b);
    StarThenStarFree(b);
    PassesSkipLiteralPrefix(a, [Lit('*')] + Literals(b));
    RewriteStarAppend(Literals(a), [Lit('*')] + Literals(b));
    StarFreeUnchangedByRewriteStar(a);
  }

  // A leading `**/` always becomes the any-depth prefix, whatever follows it.
  lemma CompileAnyDepthPrefix(g: string)
    ensures Compile("**/" + g) == [DoubleStarSlash] + Compile(g)
  {
    var s, d := Lit('*'), Lit('/');
    var l := Literals(g);
    LiteralsAppend("**/", g);
    assert Literals("**/") == [s, s, d];
    assert ([s, s, d] + l)[3..] == l;
    var t1 := RewriteDoubleStarSlash(l);
    assert RewriteDoubleStarSlash([s, s, d] + l) == [DoubleStarSlash] + t1;
    assert ([DoubleStarSlash] + t1)[1..] == t1;
    var t2 := RewriteDoubleStar(t1);
    assert RewriteDoubleStar([DoubleStarSlash] + t1) == [DoubleStarSlash] + t2;
    RewriteStarAppend([DoubleStarSlash], t2);
  }

  // `***/`: the first pass takes the last two `*` with the `/`, leaving the first `*` single.
  lemma CompileTripleStarSlash()
    ensures Compile("***/") == [Star, DoubleStarSlash]
  {
    var s, d := Lit('*'), Lit('/');
    assert Literals("***/") == [s, s, s, d];
    assert RewriteDoubleStarSlash([s, s, d]) == [DoubleStarSlash] + RewriteDoubleStarSlash([]);
    assert [s, s, s, d][1..] == [s, s, d];
    assert RewriteDoubleStarSlash([s, s, s, d]) == [s, DoubleStarSlash];
    assert RewriteDoubleStar([DoubleStarSlash]) == [DoubleStarSlash];
    assert [s, DoubleStarSlash][1..] == [DoubleStarSlash];
    assert RewriteDoubleStar([s, DoubleStarSlash]) == [s, DoubleStarSlash];
  }

  // `**/**`: the any-depth prefix followed by a bare `**`.
  lemma CompileDoubleStarSlashDoubleStar()
    ensures Compile("**/**") == [DoubleStarSlash, DoubleStar]
  {
    var s, d := Lit('*'), Lit('/');
    assert Literals("**/**") == [s, s, d, s, s];
    assert [s, s, d, s, s][3..] == [s, s];
    assert [s, s][1..] == [s] && [s][1..] == [];
    assert RewriteDoubleStarSlash([s]) == [s];
    assert RewriteDoubleStarSlash([s, s]) == [s, s];
    assert RewriteDoubleStarSlash([s, s, d, s, s]) == [DoubleStarSlash] + [s, s];
    assert [DoubleStarSlash, s, s][1..] == [s, s];
    assert RewriteDoubleStar([s, s]) == [DoubleStar] + RewriteDoubleStar([]);
    assert RewriteDoubleStar([DoubleStarSlash, s, s]) == [DoubleStarSlash, DoubleStar];
  }

  // `a**b`: a `**` not followed by `/` is the any-run wildcard, not two single stars.
  lemma CompileInnerDoubleStar()
    ensures Compile("a**b") == [Lit('a'), DoubleStar, Lit('b')]
  {
    var s, a, b := Lit('*'), Lit('a'), Lit('b');
    assert Literals("a**b") == [a, s, s, b];
    assert [a, s, s, b][1..] == [s, s, b];
    assert [s, s, b][1..] == [s, b];
    assert [s, b][1..] == [b];
    assert [b][1..] == [];
    assert RewriteDoubleStarSlash([b]) == [b];
    assert RewriteDoubleStar([b]) == [b];
    assert RewriteDoubleStarSlash([s, b]) == [s, b];
    assert RewriteDoubleStarSlash([s, s, b]) == [s, s, b];
    assert RewriteDoubleStarSlash([a, s, s, b]) == [a, s, s, b];
    assert [s, s, b][2..] == [b];
    assert RewriteDoubleStar([s, s, b]) == [DoubleStar, b];
    assert RewriteDoubleStar([a, s, s, b]) == [a, DoubleStar, b];
  }

  // ---------------------------------------------------------------------
  // Matching, one token at a time.

  lemma LiteralsExact(s: string, p: string)
    ensures Matches(Literals(s), p) <==> p == s
  {
    assert Literals(s) + [] == Literals(s);
    LiteralsSemantics(s, [], p);
    if Matches(Literals(s), p) {
      assert p == p[..|s|] + p[|s|..];
    }
  }

  lemma StarThen(rest: seq<Token>, s: string, q: string)
    requires SegmentRun(s) && Matches(rest, q)
    ensures Matches([Star] + rest, s + q)
  {
    StarSemantics(rest, s + q);
    assert (s + q)[..|s|] == s && (s + q)[|s|..] == q;
  }

  lemma DirectoryPrefixThen(rest: seq<Token>, d: string, q: string)
    requires d != [] && d[|d| - 1] == '/' && LineRun(d) && Matches(rest, q)
    ensures Matches([DoubleStarSlash] + rest, d + q)
  {
    DoubleStarSlashSemantics(rest, d + q);
    assert (d + q)[..|d|] == d && (d + q)[|d|..] == q;
    assert (d + q)[|d| - 1] == '/';
  }

  // The split a `*` match makes: the run it took and the rest of the path.
  lemma {:induction false} StarSplit(rest: seq<Token>, p: string) returns (k: nat)
    requires Matches([Star] + rest, p)
    ensures k <= |p| && SegmentRun(p[..k]) && Matches(rest, p[k..])
    decreases |p|
  {
    var t := [Star] + rest;
    assert t[0] == Star && t[1..] == rest;
    if Matches(rest, p) {
      k := 0;
      assert p[..0] == [] && p[0..] == p;
    } else {
      var k' := StarSplit(rest, p[1..]);
      k := k' + 1;
      assert p[..k] == [p[0]] + p[1..][..k'];
      assert p[k..] == p[1..][k'..];
    }
  }

  // The split a `**/` match makes: the directory prefix it took (possibly none).
  lemma {:induction false} DirectorySplit(rest: seq<Token>, p: string) returns (k: nat)
    requires Matches([DoubleStarSlash] + rest, p)
    ensures k <= |p| && Matches(rest, p[k..])
    ensures k == 0 || (p[k - 1] == '/' && LineRun(p[..k]))
  {
    var t := [DoubleStarSlash] + rest;
    assert t[0] == DoubleStarSlash && t[1..] == rest;
    if Matches(rest, p) {
      k := 0;
      assert p[0..] == p;
    } else {
      k := DirectoryThenSound(rest, p);
    }
  }

  lemma SuffixOf(p: string, k: nat, ext: string)
    requires k <= |p| && p[k..] == ext
    ensures |ext| <= |p| && p[|p| - |ext|..] == ext
  {
  }

  // `**/*<ext>` compiles to the any-depth prefix, a `*` and the literal extension.
  lemma CompileAnyDepthStar(ext: string)
    requires '*' !in ext
    ensures Compile("**/*" + ext) == [DoubleStarSlash] + ([Star] + Literals(ext))
  {
    assert "**/*" + ext == "**/" + ("" + "*" + ext);
    CompileAnyDepthPrefix("" + "*" + ext);
    CompileOneStar("", ext);
    assert Literals("") + ([Star] + Literals(ext)) == [Star] + Literals(ext);
  }

  // `**/*<ext>` only matches paths that end in `<ext>`.
  lemma AnyDepthStarSuffix(ext: string, p: string)
    requires '*' !in ext
    requires GlobMatches("**/*" + ext, p)
    ensures |ext| <= |p| && p[|p| - |ext|..] == ext
  {
    CompileAnyDepthStar(ext);
    var l := Literals(ext);
    var k := DirectorySplit([Star] + l, p);
    var q := p[k..];
    var j := StarSplit(l, q);
    LiteralsExact(ext, q[j..]);
    assert p[k + j..] == q[j..];
    SuffixOf(p, k + j, ext);
  }

  lemma AnyDepthThen(rest: seq<Token>, dir: string, q: string)
    requires dir == [] || (dir[|dir| - 1] == '/' && LineRun(dir))
    requires Matches(rest, q)
    ensures Matches([DoubleStarSlash] + rest, dir + q)
  {
    if dir == [] {
      var t := [DoubleStarSlash] + rest;
      assert t[0] == DoubleStarSlash && t[1..] == rest;
      assert dir + q == q;
    } else {
      DirectoryPrefixThen(rest, dir, q);
    }
  }

  // ... and matches every path whose last segment ends in `<ext>`.
  lemma AnyDepthStarMatches(ext: string, dir: string, name: string)
    requires '*' !in ext
    requires dir == [] || (dir[|dir| - 1] == '/' && LineRun(dir))
    requires SegmentRun(name)
    ensures GlobMatches("**/*" + ext, dir + name + ext)
  {
    CompileAnyDepthStar(ext);
    var l := Literals(ext);
    LiteralsExact(ext, ext);
    StarThen(l, name, ext);
    AnyDepthThen([Star] + l, dir, name + ext);
    assert dir + name + ext == dir + (name + ext);
  }

  // Worked examples for `**/*.lock`.
  lemma LockGlobMatchesBareName()
    ensures GlobMatches("**/*.lock", "c.lock")
  {
    var g, p := "**/*" + ".lock", "" + "c" + ".lock";
    AnyDepthStarMatches(".lock", "", "c");
    assert g == "**/*.lock";
    assert p == "c.lock";
  }

  lemma LockGlobMatchesNestedName()
    ensures GlobMatches("**/*.lock", "a/b/c.lock")
  {
    var g, p := "**/*" + ".lock", "a/b/" + "c" + ".lock";
    assert LineRun("a/b/");
    AnyDepthStarMatches(".lock", "a/b/", "c");
    assert g == "**/*.lock";
    assert p == "a/b/c.lock";
  }

  lemma LockGlobRejectsLongerName()
    ensures !GlobMatches("**/*.lock", "c.lock.bak")
  {
    var g, p := "**/*" + ".lock", "c.lock.bak";
    assert g == "**/*.lock";
    if GlobMatches(g, p) {
      AnyDepthStarSuffix(".lock", p);
      assert false;
    }
  }

  // A glob with one `*` matches the glob's text with any single-segment run in place of the `*`.
  lemma OneStarMatches(a: string, b: string, name: string)
    requires '*' !in a && '*' !in b
    requires SegmentRun(name)
    ensures GlobMatches(a + "*" + b, a + name + b)
  {
    CompileOneStar(a, b);
    var l := Literals(b);
    LiteralsExact(b, b);
    StarThen(l, name, b);
    LiteralsSemantics(a, [Star] + l, a + (name + b));
    assert (a + (name + b))[..|a|] == a;
    assert (a + (name + b))[|a|..] == name + b;
    assert a + name + b == a + (name + b);
  }

  // Worked examples for `src/*.ts`.
  lemma SourceGlobMatchesFile()
    ensures GlobMatches("src/*.ts", "src/a.ts")
  {
    var g, p := "src/" + "*" + ".ts", "src/" + "a" + ".ts";
    OneStarMatches("src/", ".ts", "a");
    assert g == "src/*.ts";
    assert p == "src/a.ts";
  }

  // A glob without `**` rejects every path whose depth differs from its own.
  lemma DepthMismatchRejects(glob: string, path: string)
    requires forall k :: 0 <= k < |glob| - 1 ==> !(glob[k] == '*' && glob[k + 1] == '*')
    requires SlashCount(path) != SlashCount(glob)
    ensures !GlobMatches(glob, path)
  {
    if GlobMatches(glob, path) {
      StarStaysInSegment(glob, path);
      assert false;
    }
  }

  // ... and rejects a file one directory further down.
  lemma SourceGlobRejectsNestedFile(dir: string, name: string)
    requires '/' !in dir && '/' !in name
    ensures !GlobMatches("src/" + "*" + ".ts", "src/" + dir + "/" + name)
  {
    var g, p := "src/" + "*" + ".ts", "src/" + dir + "/" + name;
    SlashFree("*" + ".ts");
    SlashCountAppend("src/", "*" + ".ts");
    SlashFree(dir);
    SlashFree(name);
    SlashCountAppend("src/", dir);
    SlashCountAppend("src/" + dir, "/");
    SlashCountAppend("src/" + dir + "/", name);
    assert "src/" + ("*" + ".ts") == g;
    DepthMismatchRejects(g, p);
  }

  lemma {:induction false} SlashFree(s: string)
    requires '/' !in s
    ensures SlashCount(s) == 0
  {
    if s != [] {
      assert s[0] != '/';
      SlashFree(s[1..]);
    }
  }

  // `**/<name>` with a star-free name: the name itself, in any directory.
  lemma AnyDepthLiteralMatches(name: string, dir: string)
    requires '*' !in name
    requires dir == [] || (dir[|dir| - 1] == '/' && LineRun(dir))
    ensures GlobMatches("**/" + name, dir + name)
  {
    CompileAnyDepthPrefix(name);
    StarFreeCompilesToLiterals(name);
    LiteralsExact(name, name);
    AnyDepthThen(Literals(name), dir, name);
  }

  lemma AnyDepthLiteralSuffix(name: string, p: string)
    requires '*' !in name
    requires GlobMatches("**/" + name, p)
    ensures |name| <= |p| && p[|p| - |name|..] == name
  {
    CompileAnyDepthPrefix(name);
    StarFreeCompilesToLiterals(name);
    var k := DirectorySplit(Literals(name), p);
    LiteralsExact(name, p[k..]);
    SuffixOf(p, k, name);
  }

  lemma StarFreeCompilesToLiterals(a: string)
    requires '*' !in a
    ensures Compile(a) == Literals(a)
  {
    LiteralsAt(a);
    PassesKeepStarFreeTokens(Literals(a));
  }

  lemma CompilePrefixThenDoubleStar(a: string)
    requires '*' !in a
    ensures Compile(a + "**") == Literals(a) + [DoubleStar]
  {
    var s := Lit('*');
    LiteralsAppend(a, "**");
    assert Literals("**") == [s, s];
    PassesSkipLiteralPrefix(a, [s, s]);
    assert [s, s][1..] == [s];
    assert RewriteDoubleStarSlash([s]) == [s] + RewriteDoubleStarSlash([]);
    assert RewriteDoubleStarSlash([s, s]) == [s, s];
    assert RewriteDoubleStar([s, s]) == [DoubleStar] + RewriteDoubleStar([]);
    RewriteStarAppend(Literals(a), [DoubleStar]);
    StarFreeUnchangedByRewriteStar(a);
  }

  // `<prefix>**` with a star-free prefix: every path that starts with the prefix.
  lemma PrefixGlobSemantics(a: string, p: string)
    requires '*' !in a
    ensures GlobMatches(a + "**", p) <==> |a| <= |p| && p[..|a|] == a && LineRun(p[|a|..])
  {
    CompilePrefixThenDoubleStar(a);
    LiteralsSemantics(a, [DoubleStar], p);
    if |a| <= |p| {
      var q := p[|a|..];
      DoubleStarSemantics([], q);
      assert [DoubleStar] + [] == [DoubleStar];
      assert q[..|q|] == q && q[|q|..] == [];
      if Matches([DoubleStar], q) {
        var k :| 0 <= k <= |q| && LineRun(q[..k]) && Matches([], q[k..]);
        assert q[k..] == [];
        assert k == |q|;
      }
    }
  }
}

