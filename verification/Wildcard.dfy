/**
  Glob matching of hierarchical names (include/common/Wildcard.hpp). A pattern is
  read as a sequence of tokens, each with a language of its own; the matcher is
  proved to accept exactly the concatenations of those languages.
  */
module Wildcard {
  /** Names as the C strings the matcher walks: no character is NUL, which stands for the end. */
  type Name = s: string | '\0' !in s

  function At(s: string, i: nat): char {
    if i < |s| then s[i] else '\0'
  }

  datatype Token =
    | Literal(c: char)
    | OneChar
    | InSegment
    | Recursive(lead: bool, trail: bool)

  /** The number of characters of a recursive wildcard that starts at `i`, if there is one. */
  function RecursiveLength(p: string, i: nat): (n: nat)
    ensures n <= 3 && (n > 0 ==> i + n <= |p|)
  {
    if At(p, i) == '*' && At(p, i + 1) == '*' then (if i + 2 <= |p| then 2 else 0)
    else if At(p, i) == '.' && At(p, i + 1) == '.' && At(p, i + 2) == '.' then (if i + 3 <= |p| then 3 else 0)
    else 0
  }

  function HasLead(p: string): bool {
    At(p, 0) == '.' && RecursiveLength(p, 1) != 0
  }

  /** The token a pattern starts with, and how many characters it takes. */
  function FirstToken(p: string): (r: (Token, nat))
    requires p != ""
    ensures 0 < r.1 <= |p|
  {
    var lead := HasLead(p);
    var at := if lead then 1 else 0;
    var length := RecursiveLength(p, at);
    if length != 0 then
      var trail := At(p, at + length) == '.';
      (Recursive(lead, trail), if trail && at + length < |p| then at + length + 1 else at + length)
    else if p[0] == '*' then (InSegment, 1)
    else if p[0] == '?' then (OneChar, 1)
    else (Literal(p[0]), 1)
  }

  function Tokens(p: string): seq<Token> {
    if p == "" then [] else [FirstToken(p).0] + Tokens(p[FirstToken(p).1..])
  }

  /** The strings a token stands for. */
  predicate Stands(t: Token, u: string) {
    match t
    case Literal(c) => u == [c]
    case OneChar => |u| == 1 && u[0] != '.'
    case InSegment => '.' !in u
    case Recursive(true, true) => u != "" && u[0] == '.' && u[|u| - 1] == '.'
    case Recursive(true, false) => u == "" || u[0] == '.'
    case Recursive(false, true) => u == "" || u[|u| - 1] == '.'
    case Recursive(false, false) => true
  }

  function Concatenation(pieces: seq<string>): string {
    if pieces == [] then "" else pieces[0] + Concatenation(pieces[1..])
  }

  ghost predicate Cuts(tokens: seq<Token>, text: string, pieces: seq<string>) {
    |pieces| == |tokens| && Concatenation(pieces) == text && forall i :: 0 <= i < |tokens| ==> Stands(tokens[i], pieces[i])
  }

  /** The text is made of one piece per token, each in its token's language. */
  ghost predicate InLanguage(tokens: seq<Token>, text: string) {
    exists pieces :: Cuts(tokens, text, pieces)
  }

  /** The first token stands for the first `k` characters, and the other tokens for the others. */
  ghost predicate SplitsAt(tokens: seq<Token>, text: string, k: nat)
    requires tokens != []
  {
    k <= |text| && Stands(tokens[0], text[..k]) && InLanguage(tokens[1..], text[k..])
  }

  lemma FirstPiece(tokens: seq<Token>, text: string)
    requires tokens != []
    ensures InLanguage(tokens, text) <==> exists k: nat :: SplitsAt(tokens, text, k)
  {
    if InLanguage(tokens, text) {
      var pieces :| Cuts(tokens, text, pieces);
      var k := |pieces[0]|;
      assert text[..k] == pieces[0] && text[k..] == Concatenation(pieces[1..]);
      assert Cuts(tokens[1..], text[k..], pieces[1..]);
      assert SplitsAt(tokens, text, k);
    }
    if k: nat :| SplitsAt(tokens, text, k) {
      var others :| Cuts(tokens[1..], text[k..], others);
      assert text == text[..k] + text[k..] && ([text[..k]] + others)[1..] == others;
      assert Cuts(tokens, text, [text[..k]] + others);
    }
  }

  lemma NoTokens(text: string)
    ensures InLanguage([], text) <==> text == ""
  {
    if text == "" {
      assert Cuts([], text, []);
    }
  }

  /** A token that stands for single characters takes one off the text. */
  lemma SingleStep(tokens: seq<Token>, text: string)
    requires tokens != [] && (tokens[0].Literal? || tokens[0].OneChar?)
    ensures InLanguage(tokens, text) <==> text != "" && Stands(tokens[0], text[..1]) && InLanguage(tokens[1..], text[1..])
  {
    FirstPiece(tokens, text);
    if k: nat :| SplitsAt(tokens, text, k) {
      assert k == 1;
    }
    if text != "" && Stands(tokens[0], text[..1]) && InLanguage(tokens[1..], text[1..]) {
      assert SplitsAt(tokens, text, 1);
    }
  }

  /** Accepts exactly the texts in the language of the pattern's tokens. */
  method WildcardMatch(text: Name, pattern: Name) returns (r: bool)
    ensures r <==> InLanguage(Tokens(pattern), text)
    decreases |pattern|, 1
  {
    var t, p: Name := text, pattern;
    while p != ""
      invariant |p| <= |pattern|
      invariant InLanguage(Tokens(pattern), text) <==> InLanguage(Tokens(p), t)
      decreases |p|
    {
      var hasLead := HasLead(p);
      var at := if hasLead then 1 else 0;
      var recurLen := RecursiveLength(p, at);
      if recurLen != 0 {
        var hasTrail := At(p, at + recurLen) == '.';
        var rest: Name := p[at + recurLen + if hasTrail then 1 else 0..];
        assert Tokens(p) == Before(Recursive(hasLead, hasTrail), rest);
        r := MatchRecursive(hasLead, hasTrail, t, rest);
        return;
      }
      if p[0] == '*' {
        assert Tokens(p) == Before(InSegment, p[1..]);
        r := MatchInSegment(t, p[1..]);
        return;
      }
      var token := if p[0] == '?' then OneChar else Literal(p[0]);
      SingleStep(Tokens(p), t);
      if p[0] == '?' {
        if At(t, 0) == '\0' || At(t, 0) == '.' {
          return false;
        }
      } else if p[0] != At(t, 0) {
        return false;
      }
      p := p[1..];
      t := t[1..];
    }
    NoTokens(t);
    r := t == "";
  }

  /** No piece of at most `n` characters can be given to the first token. */
  ghost predicate NoneUpTo(tokens: seq<Token>, text: string, n: int)
    requires tokens != []
  {
    forall k: nat :: k <= n ==> !SplitsAt(tokens, text, k)
  }

  /** The tokens of a pattern that starts with `t` and goes on with `rest`. */
  ghost function Before(t: Token, rest: string): (tokens: seq<Token>)
    ensures tokens != [] && tokens[0] == t && tokens[1..] == Tokens(rest)
  {
    [t] + Tokens(rest)
  }

  /** `*`: tries the rest of the pattern after every prefix that has no dot. */
  method MatchInSegment(text: Name, rest: Name) returns (r: bool)
    ensures r <==> InLanguage(Before(InSegment, rest), text)
    decreases |rest|, 2
  {
    ghost var tokens := Before(InSegment, rest);
    FirstPiece(tokens, text);
    var i := 0;
    while true
      invariant i <= |text| && '.' !in text[..i] && NoneUpTo(tokens, text, i - 1)
      decreases |text| - i
    {
      r := WildcardMatch(text[i..], rest);
      assert r <==> SplitsAt(tokens, text, i);
      if r {
        return;
      }
      if At(text, i) == '\0' || At(text, i) == '.' {
        assert forall k: nat :: i < k <= |text| ==> text[..k][i] == '.';
        return;
      }
      assert text[..i + 1] == text[..i] + [text[i]];
      i := i + 1;
    }
  }

  /** A recursive wildcard, with the dots around it that it takes in. */
  method MatchRecursive(lead: bool, trail: bool, text: Name, rest: Name) returns (r: bool)
    ensures r <==> InLanguage(Before(Recursive(lead, trail), rest), text)
    decreases |rest|, 3
  {
    if lead && trail {
      r := MatchBoundary(text, rest);
    } else if lead {
      r := MatchSuffix(text, rest);
    } else if trail {
      r := MatchPrefix(text, rest);
    } else {
      r := MatchAnything(text, rest);
    }
  }

  /** A prefix stands for the token when it starts and ends with a dot. */
  lemma BoundarySplits(tokens: seq<Token>, text: string, k: nat)
    requires tokens != [] && tokens[0] == Recursive(true, true) && k <= |text|
    ensures SplitsAt(tokens, text, k) <==> k > 0 && text[0] == '.' && text[k - 1] == '.' && InLanguage(tokens[1..], text[k..])
  {
    if k > 0 {
      assert text[..k][0] == text[0] && text[..k][k - 1] == text[k - 1];
    }
  }

  lemma NoBoundary(tokens: seq<Token>, text: string)
    requires tokens != [] && tokens[0] == Recursive(true, true) && (text == "" || text[0] != '.')
    ensures NoneUpTo(tokens, text, |text|)
  {
    forall k: nat | k <= |text|
      ensures !SplitsAt(tokens, text, k)
    {
      BoundarySplits(tokens, text, k);
    }
  }

  /** A dot, and then the rest at once or after any further dot. */
  method MatchBoundary(text: Name, rest: Name) returns (r: bool)
    ensures r <==> InLanguage(Before(Recursive(true, true), rest), text)
    decreases |rest|, 2
  {
    ghost var tokens := Before(Recursive(true, true), rest);
    FirstPiece(tokens, text);
    BoundarySplits(tokens, text, 0);
    if At(text, 0) != '.' {
      NoBoundary(tokens, text);
      return false;
    }
    BoundarySplits(tokens, text, 1);
    r := WildcardMatch(text[1..], rest);
    if r {
      return;
    }
    var i := 1;
    while i < |text|
      invariant 1 <= i <= |text| && NoneUpTo(tokens, text, i)
    {
      BoundarySplits(tokens, text, i + 1);
      if text[i] == '.' {
        r := WildcardMatch(text[i + 1..], rest);
        if r {
          return;
        }
      }
      i := i + 1;
    }
    return false;
  }

  /** A prefix stands for the token when it is nothing or starts with a dot. */
  lemma SuffixSplits(tokens: seq<Token>, text: string, k: nat)
    requires tokens != [] && tokens[0] == Recursive(true, false) && k <= |text|
    ensures SplitsAt(tokens, text, k) <==> (k == 0 || text[0] == '.') && InLanguage(tokens[1..], text[k..])
  {
    if k > 0 {
      assert text[..k][0] == text[0];
    }
  }

  /** Nothing, or a dot and any suffix. */
  method MatchSuffix(text: Name, rest: Name) returns (r: bool)
    ensures r <==> InLanguage(Before(Recursive(true, false), rest), text)
    decreases |rest|, 2
  {
    ghost var tokens := Before(Recursive(true, false), rest);
    FirstPiece(tokens, text);
    assert text[0..] == text;
    SuffixSplits(tokens, text, 0);
    r := WildcardMatch(text, rest);
    if r {
      return;
    }
    if At(text, 0) != '.' {
      forall k: nat | 0 < k <= |text| ensures !SplitsAt(tokens, text, k) { SuffixSplits(tokens, text, k); }
      return false;
    }
    var i := 1;
    while true
      invariant 1 <= i <= |text| && NoneUpTo(tokens, text, i - 1)
      decreases |text| - i
    {
      r := WildcardMatch(text[i..], rest);
      SuffixSplits(tokens, text, i);
      if r || At(text, i) == '\0' {
        return;
      }
      i := i + 1;
    }
  }

  /** A prefix stands for the token when it is nothing or ends in a dot. */
  lemma PrefixSplits(tokens: seq<Token>, text: string, k: nat)
    requires tokens != [] && tokens[0] == Recursive(false, true) && k <= |text|
    ensures SplitsAt(tokens, text, k) <==> (k == 0 || text[k - 1] == '.') && InLanguage(tokens[1..], text[k..])
  {
    if k > 0 {
      assert text[..k][k - 1] == text[k - 1];
    }
  }

  /** Nothing, or any prefix that ends in a dot. */
  method MatchPrefix(text: Name, rest: Name) returns (r: bool)
    ensures r <==> InLanguage(Before(Recursive(false, true), rest), text)
    decreases |rest|, 2
  {
    ghost var tokens := Before(Recursive(false, true), rest);
    FirstPiece(tokens, text);
    assert text[0..] == text;
    PrefixSplits(tokens, text, 0);
    r := WildcardMatch(text, rest);
    if r {
      return;
    }
    var i := 0;
    while i < |text|
      invariant i <= |text| && NoneUpTo(tokens, text, i)
    {
      PrefixSplits(tokens, text, i + 1);
      if text[i] == '.' {
        r := WildcardMatch(text[i + 1..], rest);
        if r {
          return;
        }
      }
      i := i + 1;
    }
    return false;
  }

  method MatchAnything(text: Name, rest: Name) returns (r: bool)
    ensures r <==> InLanguage(Before(Recursive(false, false), rest), text)
    decreases |rest|, 2
  {
    ghost var tokens := Before(Recursive(false, false), rest);
    FirstPiece(tokens, text);
    var i := 0;
    while true
      invariant i <= |text| && NoneUpTo(tokens, text, i - 1)
      decreases |text| - i
    {
      r := WildcardMatch(text[i..], rest);
      assert r <==> SplitsAt(tokens, text, i);
      if r || At(text, i) == '\0' {
        return;
      }
      i := i + 1;
    }
  }

  function Dots(s: string): nat {
    if s == "" then 0 else (if s[0] == '.' then 1 else 0) + Dots(s[1..])
  }

  lemma {:induction false} DotsAdd(a: string, b: string)
    ensures Dots(a + b) == Dots(a) + Dots(b)
  {
    if a == "" {
      assert a + b == b;
    } else {
      assert (a + b)[1..] == a[1..] + b;
      DotsAdd(a[1..], b);
    }
  }

  lemma {:induction false} NoDots(s: string)
    requires '.' !in s
    ensures Dots(s) == 0
  {
    if s != "" {
      NoDots(s[1..]);
    }
  }

  /** Without a recursive wildcard, a match keeps to the depth of the pattern: as many dots in the text as in the pattern. */
  lemma {:induction false} MatchKeepsDepth(text: string, pattern: string)
    requires forall t :: t in Tokens(pattern) ==> !t.Recursive?
    requires InLanguage(Tokens(pattern), text)
    ensures Dots(text) == Dots(pattern)
    decreases |pattern|
  {
    if pattern == "" {
      NoTokens(text);
    } else {
      var tokens := Tokens(pattern);
      var t, rest := tokens[0], pattern[FirstToken(pattern).1..];
      assert t in tokens && tokens[1..] == Tokens(rest);
      assert forall u :: u in Tokens(rest) ==> u in tokens;
      FirstPiece(tokens, text);
      var k: nat :| SplitsAt(tokens, text, k);
      MatchKeepsDepth(text[k..], rest);
      assert text == text[..k] + text[k..];
      DotsAdd(text[..k], text[k..]);
      assert FirstToken(pattern).1 == 1;
      if t.InSegment? {
        NoDots(text[..k]);
      } else {
        assert |text[..k]| == 1;
        assert text[..k][1..] == "";
      }
    }
  }

  /** The scope itself or a descendant of it. */
  predicate PathInScope(path: string, scope: string) {
    if |path| < |scope| || path[..|scope|] != scope then false
    else |path| == |scope| || path[|scope|] == '.'
  }

  /** A name with no wildcard in it. */
  predicate Plain(s: string) {
    (forall i :: 0 <= i < |s| ==> s[i] != '*' && s[i] != '?')
    && (forall i :: 0 <= i < |s| - 1 ==> !(s[i] == '.' && s[i + 1] == '.'))
  }

  /** The scope test is a pattern: being in scope `s` is matching `s.**`. */
  lemma {:induction false} ScopeIsAPattern(path: string, scope: string)
    requires Plain(scope)
    ensures PathInScope(path, scope) <==> InLanguage(Tokens(scope + ".**"), path)
    decreases |scope|
  {
    if scope == "" {
      assert scope + ".**" == ".**";
      RootScope(path, ".**");
    } else {
      var rest := scope[1..] + ".**";
      var pattern := scope + ".**";
      assert pattern[1..] == rest;
      PlainToken(scope, pattern);
      SingleStep(Tokens(pattern), path);
      if path != "" {
        ScopeIsAPattern(path[1..], scope[1..]);
        ScopeStep(path, scope);
      }
    }
  }

  lemma RootScope(path: string, pattern: string)
    requires pattern == ".**"
    ensures PathInScope(path, "") <==> InLanguage(Tokens(pattern), path)
  {
    var tokens := Tokens(pattern);
    assert FirstToken(pattern) == (Recursive(true, false), 3);
    assert pattern[3..] == "" && Tokens("") == [];
    assert tokens == [Recursive(true, false)] && tokens[1..] == [];
    FirstPiece(tokens, path);
    if k: nat :| SplitsAt(tokens, path, k) {
      NoTokens(path[k..]);
      assert path[..k] == path;
    }
    NoTokens("");
    if PathInScope(path, "") {
      assert path[..|path|] == path && path[|path|..] == "";
      assert SplitsAt(tokens, path, |path|);
    }
  }

  lemma PlainToken(scope: string, pattern: string)
    requires Plain(scope) && scope != "" && pattern == scope + ".**"
    ensures FirstToken(pattern) == (Literal(scope[0]), 1)
    ensures Tokens(pattern) != [] && Tokens(pattern)[0] == Literal(scope[0]) && Tokens(pattern)[1..] == Tokens(pattern[1..])
  {
  }

  lemma ScopeStep(path: string, scope: string)
    requires scope != "" && path != ""
    ensures PathInScope(path, scope) <==> path[0] == scope[0] && PathInScope(path[1..], scope[1..])
  {
    if |path| >= |scope| {
      assert path[1..][..|scope| - 1] == path[..|scope|][1..];
      assert path[..|scope|] == [path[0]] + path[..|scope|][1..];
    }
  }
}
