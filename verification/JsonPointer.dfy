/**
 JSON Pointers, as sections 3 and 4 of RFC 6901 have them: how the tokens of a path
 are escaped into text, and that no two paths share one.
 */
module JsonPointer {

  /** Every occurrence of a character replaced. */
  function ReplaceAll(s: string, c: char, replacement: string): string {
    if s == [] then []
    else (if s[0] == c then replacement else [s[0]]) + ReplaceAll(s[1..], c, replacement)
  }

  /** Two passes; the second meets no `/` that the first could have written. */
  function Escape(token: string): string {
    ReplaceAll(ReplaceAll(token, '~', "~0"), '/', "~1")
  }

  /** Reading a token back, from left to right. */
  function Unescape(s: string): string {
    if |s| < 2 || s[0] != '~' then (if s == [] then [] else [s[0]] + Unescape(s[1..]))
    else if s[1] == '0' then "~" + Unescape(s[2..])
    else if s[1] == '1' then "/" + Unescape(s[2..])
    else [s[0]] + Unescape(s[1..])
  }

  function EscapeChar(c: char): string {
    if c == '~' then "~0" else if c == '/' then "~1" else [c]
  }

  lemma {:induction false} ReplaceAllAppends(s: string, t: string, c: char, replacement: string)
    ensures ReplaceAll(s + t, c, replacement) == ReplaceAll(s, c, replacement) + ReplaceAll(t, c, replacement)
  {
    if s == [] {
      assert s + t == t;
    } else {
      assert (s + t)[1..] == s[1..] + t;
      ReplaceAllAppends(s[1..], t, c, replacement);
    }
  }

  /** The two replacements come to one, character by character. */
  lemma EscapeStep(token: string)
    requires token != []
    ensures Escape(token) == EscapeChar(token[0]) + Escape(token[1..])
  {
    var c := token[0];
    var head := if c == '~' then "~0" else [c];
    ReplaceAllAppends(head, ReplaceAll(token[1..], '~', "~0"), '/', "~1");
    assert ReplaceAll(head, '/', "~1") == EscapeChar(c) by {
      if c == '~' {
        assert head[1..] == "0" && "0"[1..] == "";
      } else {
        assert head[1..] == "";
      }
    }
  }

  predicate NoSlash(s: string) {
    forall i :: 0 <= i < |s| ==> s[i] != '/'
  }

  /** Escaping has an inverse, and leaves no separator. */
  lemma {:induction false} EscapeRoundTrip(token: string)
    ensures Unescape(Escape(token)) == token && NoSlash(Escape(token))
  {
    if token != [] {
      EscapeStep(token);
      EscapeRoundTrip(token[1..]);
      var e, rest := Escape(token), Escape(token[1..]);
      assert |EscapeChar(token[0])| == 2 ==> e[2..] == rest;
      assert |EscapeChar(token[0])| == 1 ==> e[1..] == rest;
      assert token == [token[0]] + token[1..];
    }
  }

  function Pointer(path: seq<string>): string {
    if path == [] then "" else "/" + Escape(path[0]) + Pointer(path[1..])
  }

  /** A pointer of one token, and of none, as section 5 of RFC 6901 writes them. */
  lemma PointerIsWritten(token: string)
    ensures Pointer([]) == ""
    ensures Pointer([token]) == "/" + Escape(token)
  {
    assert [token][1..] == [];
    assert "/" + Escape(token) + "" == "/" + Escape(token);
  }

  lemma SlashIsWritten()
    ensures Escape("a/b") == "a~1b"
  {
    EscapeStep("a/b");
    EscapeStep("/b");
    Plain("b");
    assert "a/b"[1..] == "/b" && "/b"[1..] == "b";
  }

  lemma TildeIsWritten()
    ensures Escape("m~n") == "m~0n"
  {
    EscapeStep("m~n");
    EscapeStep("~n");
    Plain("n");
    assert "m~n"[1..] == "~n" && "~n"[1..] == "n";
  }

  lemma {:induction false} Plain(token: string)
    requires forall i :: 0 <= i < |token| ==> token[i] != '~' && token[i] != '/'
    ensures Escape(token) == token
  {
    if token != [] {
      EscapeStep(token);
      Plain(token[1..]);
      assert token == [token[0]] + token[1..];
    }
  }

  predicate EndsToken(s: string) {
    s == [] || s[0] == '/'
  }

  /** How far the first token of some text goes. */
  function TokenLength(s: string): (n: nat)
    ensures n <= |s|
  {
    if EndsToken(s) then 0 else 1 + TokenLength(s[1..])
  }

  lemma {:induction false} TokenEnds(x: string, u: string)
    requires NoSlash(x) && EndsToken(u)
    ensures TokenLength(x + u) == |x|
  {
    if x == [] {
      assert x + u == u;
    } else {
      assert (x + u)[1..] == x[1..] + u;
      TokenEnds(x[1..], u);
    }
  }

  /** So a text splits into its first token and the rest in one way. */
  lemma FirstToken(x: string, u: string, y: string, v: string)
    requires NoSlash(x) && NoSlash(y) && EndsToken(u) && EndsToken(v) && x + u == y + v
    ensures x == y && u == v
  {
    TokenEnds(x, u);
    TokenEnds(y, v);
    assert x == (x + u)[..|x|] && u == (x + u)[|x|..];
    assert y == (y + v)[..|y|] && v == (y + v)[|y|..];
  }

  lemma AfterSlash(x: string, u: string)
    ensures ("/" + x + u)[1..] == x + u
  {
  }

  lemma PointerSplits(path: seq<string>)
    requires path != []
    ensures Pointer(path) != "" && Pointer(path)[1..] == Escape(path[0]) + Pointer(path[1..])
    ensures EndsToken(Pointer(path[1..]))
  {
    AfterSlash(Escape(path[0]), Pointer(path[1..]));
  }

  /** A pointer's text says which path it is of. */
  lemma {:induction false} PointerIsInjective(p: seq<string>, q: seq<string>)
    requires Pointer(p) == Pointer(q)
    ensures p == q
  {
    if p != [] && q != [] {
      PointerSplits(p);
      PointerSplits(q);
      EscapeRoundTrip(p[0]);
      EscapeRoundTrip(q[0]);
      FirstToken(Escape(p[0]), Pointer(p[1..]), Escape(q[0]), Pointer(q[1..]));
      PointerIsInjective(p[1..], q[1..]);
      assert p == [p[0]] + p[1..] && q == [q[0]] + q[1..];
    } else if p != [] {
      PointerSplits(p);
    } else if q != [] {
      PointerSplits(q);
    }
  }
}
