/**
 Links of applications, cases and configurations: two parts written so that trimming
 and lower-casing a link cannot make two of them one.
 */
module LinkKeys {
  import opened Wrappers
  import opened Numerals

  /*** Trimming and lower-casing ***/

  /** White space and line ends, as trimming has them. */
  predicate IsSpace(c: char) {
    var n := c as int;
    9 <= n <= 13 || n == 0x20 || n == 0xA0 || n == 0x1680 || 0x2000 <= n <= 0x200A || n == 0x2028 || n == 0x2029 ||
    n == 0x202F || n == 0x205F || n == 0x3000 || n == 0xFEFF
  }

  function TrimStart(s: string): string {
    if s != [] && IsSpace(s[0]) then TrimStart(s[1..]) else s
  }

  function TrimEnd(s: string): string {
    if s != [] && IsSpace(s[|s| - 1]) then TrimEnd(s[..|s| - 1]) else s
  }

  function Trim(s: string): string {
    TrimEnd(TrimStart(s))
  }

  function LowerChar(c: char): char {
    if 'A' <= c <= 'Z' then (c as int + 32) as char else c
  }

  predicate IsAscii(s: string) {
    forall i :: 0 <= i < |s| ==> s[i] < 128 as char
  }

  function LowerAscii(s: string): string {
    seq(|s|, i requires 0 <= i < |s| => LowerChar(s[i]))
  }

  /** Lower-casing is known of plain letters; of anything else it may do what it likes. */
  function ToLower(s: string, elsewhere: string -> string): string {
    if IsAscii(s) then LowerAscii(s) else elsewhere(s)
  }

  /*** What trimming and lower-casing do ***/

  predicate AllSpace(s: string) {
    forall i :: 0 <= i < |s| ==> IsSpace(s[i])
  }

  lemma {:induction false} TrimStartMeans(s: string) returns (before: string)
    ensures s == before + TrimStart(s) && AllSpace(before)
    ensures TrimStart(s) != [] ==> !IsSpace(TrimStart(s)[0])
  {
    if s != [] && IsSpace(s[0]) {
      var rest := TrimStartMeans(s[1..]);
      before := [s[0]] + rest;
      assert s == [s[0]] + s[1..];
    } else {
      before := [];
    }
  }

  lemma {:induction false} TrimEndMeans(s: string) returns (after: string)
    ensures s == TrimEnd(s) + after && AllSpace(after)
    ensures TrimEnd(s) != [] ==> !IsSpace(TrimEnd(s)[|TrimEnd(s)| - 1]) && TrimEnd(s)[0] == s[0]
  {
    if s != [] && IsSpace(s[|s| - 1]) {
      var rest := TrimEndMeans(s[..|s| - 1]);
      after := rest + [s[|s| - 1]];
      assert s == s[..|s| - 1] + [s[|s| - 1]];
    } else {
      after := [];
    }
  }

  /** Trimming takes white space from both ends, all of it and nothing else. */
  lemma TrimMeans(s: string) returns (before: string, after: string)
    ensures s == before + Trim(s) + after && AllSpace(before) && AllSpace(after)
    ensures Trim(s) != [] ==> !IsSpace(Trim(s)[0]) && !IsSpace(Trim(s)[|Trim(s)| - 1])
  {
    before := TrimStartMeans(s);
    after := TrimEndMeans(TrimStart(s));
    assert s == before + (Trim(s) + after);
  }

  /** Blanks, tabs and line ends are white space; what can be seen is not; and capitals have small letters. */
  lemma PlainCharacters(c: char)
    ensures IsSpace(' ') && IsSpace('\t') && IsSpace('\n') && IsSpace('\r')
    ensures '!' <= c <= '~' ==> !IsSpace(c)
    ensures LowerChar('A') == 'a' && LowerChar('Z') == 'z'
    ensures !('A' <= c <= 'Z') ==> LowerChar(c) == c
  {
  }

  /*** References ***/

  function ToRef(kind: string, value: Option<string>, elsewhere: string -> string): Option<string> {
    if value.None? || Trim(value.value) == "" then None
    else Some(kind + ":" + ToLower(Trim(value.value), elsewhere))
  }

  predicate HasValue(value: Option<string>, elsewhere: string -> string) {
    ToRef("value", value, elsewhere).Some?
  }

  lemma SamePrefix(p: string, x: string, y: string)
    requires p + x == p + y
    ensures x == y
  {
    assert x == (p + x)[|p|..] && y == (p + y)[|p|..];
  }

  /**
   References are compared without regard to white space around them and to the case of their
   letters, and to nothing less.
   */
  lemma RefsIgnoreCase(kind: string, a: string, b: string, elsewhere: string -> string)
    requires Trim(a) != "" && Trim(b) != "" && IsAscii(Trim(a)) && IsAscii(Trim(b))
    ensures ToRef(kind, Some(a), elsewhere) == ToRef(kind, Some(b), elsewhere) <==>
      |Trim(a)| == |Trim(b)| && forall i :: 0 <= i < |Trim(a)| ==> LowerChar(Trim(a)[i]) == LowerChar(Trim(b)[i])
  {
    var x, y := Trim(a), Trim(b);
    if ToRef(kind, Some(a), elsewhere) == ToRef(kind, Some(b), elsewhere) {
      SamePrefix(kind + ":", LowerAscii(x), LowerAscii(y));
      assert forall i :: 0 <= i < |x| ==> LowerAscii(x)[i] == LowerChar(x[i]);
      assert forall i :: 0 <= i < |y| ==> LowerAscii(y)[i] == LowerChar(y[i]);
    } else {
      assert LowerAscii(x) != LowerAscii(y);
    }
  }

  /*** The escape ***/

  /** A character a link may carry as it is. */
  predicate IsPlain(c: char) {
    'a' <= c <= 'z' || '0' <= c <= '9' || c == '-'
  }

  function EscapeChar(c: char): string {
    if IsPlain(c) then [c] else "~" + Print(HEX, c as nat) + "."
  }

  function Escape(s: string): string {
    if s == [] then [] else EscapeChar(s[0]) + Escape(s[1..])
  }

  function KeepCase(value: string): string {
    Escape(Trim(value))
  }

  /*** The escape has a decoder ***/

  /** How many hexadecimal digits some text begins with. */
  function HexLength(s: string): (n: nat)
    ensures n <= |s| && AllDigits(HEX, s[..n])
  {
    if s == [] || !IsDigit(HEX, s[0]) then 0 else 1 + HexLength(s[1..])
  }

  predicate IsCodePoint(n: nat) {
    n < 0xD800 || 0xE000 <= n < 0x110000
  }

  /** Reading an escaped text back; text of another shape is dropped. */
  function Unescape(s: string): string {
    if s == [] then []
    else if s[0] != '~' then [s[0]] + Unescape(s[1..])
    else
      var n := HexLength(s[1..]);
      var code := Parse(HEX, s[1..][..n]);
      if n + 1 < |s| && s[n + 1] == '.' && IsCodePoint(code) then [code as char] + Unescape(s[n + 2..]) else []
  }

  lemma {:induction false} HexEnds(digits: string, rest: string)
    requires AllDigits(HEX, digits) && (rest == [] || !IsDigit(HEX, rest[0]))
    ensures HexLength(digits + rest) == |digits|
  {
    if digits == [] {
      assert digits + rest == rest;
    } else {
      assert (digits + rest)[1..] == digits[1..] + rest;
      HexEnds(digits[1..], rest);
    }
  }

  lemma UnescapeCode(digits: string, rest: string, code: nat)
    requires AllDigits(HEX, digits) && Parse(HEX, digits) == code && IsCodePoint(code)
    ensures Unescape("~" + digits + "." + rest) == [code as char] + Unescape(rest)
  {
    var s := "~" + digits + "." + rest;
    assert s[1..] == digits + ("." + rest);
    HexEnds(digits, "." + rest);
    assert (digits + ("." + rest))[..|digits|] == digits;
    assert s[|digits| + 2..] == rest;
  }

  /** Decoding one escaped character leaves the rest to decode. */
  lemma UnescapeOne(c: char, rest: string)
    ensures Unescape(EscapeChar(c) + rest) == [c] + Unescape(rest)
  {
    if IsPlain(c) {
      assert ([c] + rest)[1..] == rest;
    } else {
      ParsePrint(HEX, c as nat);
      UnescapeCode(Print(HEX, c as nat), rest, c as nat);
    }
  }

  lemma {:induction false} EscapeRoundTrip(s: string)
    ensures Unescape(Escape(s)) == s
  {
    if s != [] {
      UnescapeOne(s[0], Escape(s[1..]));
      EscapeRoundTrip(s[1..]);
      assert s == [s[0]] + s[1..];
    }
  }

  /** What is plain already is written as it is. */
  lemma {:induction false} PlainIsKept(s: string)
    requires forall i :: 0 <= i < |s| ==> 'a' <= s[i] <= 'z' || '0' <= s[i] <= '9' || s[i] == '-'
    ensures Escape(s) == s
  {
    if s != [] {
      PlainIsKept(s[1..]);
      assert s == [s[0]] + s[1..];
    }
  }

  /*** What the escape writes survives trimming and lower-casing ***/

  /** Lower-case letters, digits, `-`, and what an escape is made of. */
  predicate IsSafe(c: char) {
    IsPlain(c) || c == '~' || c == '.'
  }

  predicate AllSafe(s: string) {
    forall i :: 0 <= i < |s| ==> IsSafe(s[i])
  }

  lemma {:induction false} EscapedIsSafe(s: string)
    ensures AllSafe(Escape(s)) && (s != [] ==> Escape(s) != [])
  {
    if s != [] {
      EscapedIsSafe(s[1..]);
      ParsePrint(HEX, s[0] as nat);
    }
  }

  predicate IsUnchangedChar(c: char) {
    c < 128 as char && !IsSpace(c) && LowerChar(c) == c
  }

  predicate IsUnchanged(s: string) {
    forall i :: 0 <= i < |s| ==> IsUnchangedChar(s[i])
  }

  lemma SafeIsUnchanged(c: char)
    requires IsSafe(c) || c == ':' || c == '@'
    ensures IsUnchangedChar(c)
  {
  }

  lemma UnchangedIsKept(s: string, elsewhere: string -> string)
    requires IsUnchanged(s)
    ensures Trim(s) == s && ToLower(s, elsewhere) == s
  {
    assert LowerAscii(s) == s;
  }

  /*** Links ***/

  datatype Kind = Application | Case | Config
  {
    function Name(): string {
      match this
      case Application => "application"
      case Case => "case"
      case Config => "config"
    }

    function Separator(): char {
      if Config? then '@' else ':'
    }
  }

  /** Both parts in one key, or none when either is missing. */
  function KeyOf(
    kind: Kind, first: Option<string>, second: Option<string>, elsewhere: string -> string): Option<string> {
    if HasValue(first, elsewhere) && HasValue(second, elsewhere)
    then Some(KeepCase(first.value) + [kind.Separator()] + KeepCase(second.value))
    else None
  }

  function ToLink(
    kind: Kind, first: Option<string>, second: Option<string>, elsewhere: string -> string): Option<string> {
    ToRef(kind.Name(), KeyOf(kind, first, second, elsewhere), elsewhere)
  }

  predicate IsBlank(value: Option<string>) {
    value.None? || Trim(value.value) == ""
  }

  /** A link is its kind and its key as they are; there is none exactly if a part is blank. */
  lemma LinkIsKey(kind: Kind, first: Option<string>, second: Option<string>, elsewhere: string -> string)
    ensures ToLink(kind, first, second, elsewhere).None? <==> IsBlank(first) || IsBlank(second)
    ensures !IsBlank(first) && !IsBlank(second) ==>
      ToLink(kind, first, second, elsewhere) ==
        Some(kind.Name() + ":" + (KeepCase(first.value) + [kind.Separator()] + KeepCase(second.value)))
  {
    if !IsBlank(first) && !IsBlank(second) {
      KeyIsUnchanged(kind, first.value, second.value);
      UnchangedIsKept(KeepCase(first.value) + [kind.Separator()] + KeepCase(second.value), elsewhere);
    }
  }

  /** What stands before the first part of a link, and between the two. */
  lemma LinkIsWritten(kind: Kind)
    ensures kind.Name() == match kind case Application => "application" case Case => "case" case Config => "config"
    ensures kind.Separator() == if kind == Config then '@' else ':'
  {
  }

  /** A safe text ends where a separator stands. */
  function SafeLength(s: string): (n: nat)
    ensures n <= |s|
  {
    if s == [] || !IsSafe(s[0]) then 0 else 1 + SafeLength(s[1..])
  }

  lemma {:induction false} SafeEnds(x: string, rest: string)
    requires AllSafe(x) && (rest == [] || !IsSafe(rest[0]))
    ensures SafeLength(x + rest) == |x|
  {
    if x == [] {
      assert x + rest == rest;
    } else {
      assert (x + rest)[1..] == x[1..] + rest;
      SafeEnds(x[1..], rest);
    }
  }

  /** A text splits at its first separator in one way. */
  lemma SplitsOnce(x: string, y: string, x1: string, y1: string, separator: char, separator1: char)
    requires AllSafe(x) && AllSafe(x1) && !IsSafe(separator) && !IsSafe(separator1)
    requires x + [separator] + y == x1 + [separator1] + y1
    ensures x == x1 && y == y1
  {
    var s := x + [separator] + y;
    assert s == x + ([separator] + y) && s == x1 + ([separator1] + y1);
    SafeEnds(x, [separator] + y);
    SafeEnds(x1, [separator1] + y1);
    assert x == s[..|x|] && x1 == s[..|x1|];
    assert y == s[|x| + 1..] && y1 == s[|x1| + 1..];
  }

  /** The part a key's piece was written for. */
  lemma KeepCaseIsInjective(a: string, b: string)
    ensures KeepCase(a) == KeepCase(b) <==> Trim(a) == Trim(b)
  {
    EscapeRoundTrip(Trim(a));
    EscapeRoundTrip(Trim(b));
  }

  lemma KeysAreInjective(kind: Kind, a: string, b: string, c: string, d: string)
    requires KeepCase(a) + [kind.Separator()] + KeepCase(b) == KeepCase(c) + [kind.Separator()] + KeepCase(d)
    ensures Trim(a) == Trim(c) && Trim(b) == Trim(d)
  {
    EscapedIsSafe(Trim(a));
    EscapedIsSafe(Trim(c));
    SplitsOnce(KeepCase(a), KeepCase(b), KeepCase(c), KeepCase(d), kind.Separator(), kind.Separator());
    KeepCaseIsInjective(a, c);
    KeepCaseIsInjective(b, d);
  }

  lemma NameIsSafe(kind: Kind)
    ensures AllSafe(kind.Name())
    ensures forall other: Kind :: kind.Name() == other.Name() ==> kind == other
  {
    assert "application"[1] == 'p' && "case"[1] == 'a' && "config"[1] == 'o';
    forall other: Kind | kind.Name() == other.Name()
      ensures kind == other
    {
      assert kind.Name()[1] == other.Name()[1];
    }
  }

  /**
   Two links are equal exactly if they are of one kind and their parts are the same but for white
   space around them.
   */
  lemma LinksAreInjective(
    kind: Kind, first: Option<string>, second: Option<string>, kind1: Kind, first1: Option<string>,
    second1: Option<string>,
    elsewhere: string -> string)
    requires !IsBlank(first) && !IsBlank(second) && !IsBlank(first1) && !IsBlank(second1)
    ensures ToLink(kind, first, second, elsewhere) == ToLink(kind1, first1, second1, elsewhere) <==>
      kind == kind1 && Trim(first.value) == Trim(first1.value) && Trim(second.value) == Trim(second1.value)
  {
    LinkIsKey(kind, first, second, elsewhere);
    LinkIsKey(kind1, first1, second1, elsewhere);
    var k := KeepCase(first.value) + [kind.Separator()] + KeepCase(second.value);
    var k1 := KeepCase(first1.value) + [kind1.Separator()] + KeepCase(second1.value);
    if ToLink(kind, first, second, elsewhere) == ToLink(kind1, first1, second1, elsewhere) {
      NamedKeysAreInjective(kind, k, kind1, k1);
      KeysAreInjective(kind, first.value, second.value, first1.value, second1.value);
    }
  }

  lemma NamedKeysAreInjective(kind: Kind, k: string, kind1: Kind, k1: string)
    requires kind.Name() + ":" + k == kind1.Name() + ":" + k1
    ensures kind == kind1 && k == k1
  {
    NameIsSafe(kind);
    NameIsSafe(kind1);
    SplitsOnce(kind.Name(), k, kind1.Name(), k1, ':', ':');
  }

  /*** Asking for a link ***/

  function IndexOfColon(s: string): (i: int)
    ensures -1 <= i < |s|
    ensures i >= 0 ==> s[i] == ':' && forall j :: 0 <= j < i ==> s[j] != ':'
  {
    if s == [] then -1
    else if s[0] == ':' then 0
    else var i := IndexOfColon(s[1..]); if i == -1 then -1 else i + 1
  }

  /** A request's text: what stands before its first colon is the kind, if the bucket declares it. */
  function ParseRef(declared: set<string>, text: string, elsewhere: string -> string): Option<(string, string)> {
    var colon := IndexOfColon(text);
    var kind := text[..if colon < 0 then 0 else colon];
    var ref := ToRef(kind, Some(text[colon + 1..]), elsewhere);
    if kind in declared && ref.Some? then Some((kind, ref.value)) else None
  }

  /** A request's text is taken exactly if it names a declared kind before its first colon and something after it. */
  lemma ParsesExactly(declared: set<string>, kind: string, rest: string, elsewhere: string -> string)
    requires AllSafe(kind)
    ensures ParseRef(declared, kind + ":" + rest, elsewhere) ==
      if kind in declared && Trim(rest) != "" then Some((kind, kind + ":" + ToLower(Trim(rest), elsewhere))) else None
  {
    var text := kind + ":" + rest;
    ColonEnds(kind, rest);
    assert text[..|kind|] == kind && text[|kind| + 1..] == rest;
  }

  lemma {:induction false} ColonEnds(x: string, rest: string)
    requires AllSafe(x)
    ensures IndexOfColon(x + ":" + rest) == |x|
  {
    if x == [] {
      assert x + ":" + rest == ":" + rest;
    } else {
      assert (x + ":" + rest)[1..] == x[1..] + ":" + rest;
      ColonEnds(x[1..], rest);
    }
  }

  /** A link asked for is found under itself: parsing gives back its kind and the same text. */
  lemma LinkIsParsedAsItself(
    kind: Kind, first: Option<string>, second: Option<string>, declared: set<string>, elsewhere: string -> string)
    requires !IsBlank(first) && !IsBlank(second) && kind.Name() in declared
    ensures ToLink(kind, first, second, elsewhere).Some?
    ensures
      var link := ToLink(kind, first, second, elsewhere).value;
      ParseRef(declared, link, elsewhere) == Some((kind.Name(), link))
  {
    LinkIsKey(kind, first, second, elsewhere);
    var key := KeepCase(first.value) + [kind.Separator()] + KeepCase(second.value);
    var link := kind.Name() + ":" + key;
    NameIsSafe(kind);
    ColonEnds(kind.Name(), key);
    assert link[..|kind.Name()|] == kind.Name() && link[|kind.Name()| + 1..] == key;
    KeyIsUnchanged(kind, first.value, second.value);
    UnchangedIsKept(key, elsewhere);
  }

  lemma KeyIsUnchanged(kind: Kind, a: string, b: string)
    ensures IsUnchanged(KeepCase(a) + [kind.Separator()] + KeepCase(b))
    ensures KeepCase(a) + [kind.Separator()] + KeepCase(b) != []
  {
    var x, y := KeepCase(a), KeepCase(b);
    var key := x + [kind.Separator()] + y;
    EscapedIsSafe(Trim(a));
    EscapedIsSafe(Trim(b));
    assert key[|x|] == kind.Separator();
    forall i | 0 <= i < |key|
      ensures IsUnchangedChar(key[i])
    {
      assert key[i] == if i < |x| then x[i] else if i == |x| then kind.Separator() else y[i - |x| - 1];
      SafeIsUnchanged(key[i]);
    }
  }
}
