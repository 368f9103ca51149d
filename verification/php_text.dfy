/** PHP strings as byte sequences, and the three string built-ins the
    registration handler applies to request fields: `trim`, `empty` and
    `preg_match` with the username pattern `/^[a-zA-Z0-9_]+$/`. */
module PhpText {

  /** A PHP string is a sequence of bytes. A byte is written here as a char
      below 256 so that ASCII literals can be used directly; `strlen(s)` is `|s|`. */
  type Byte = c: char | c as int < 256 witness 'a'
  type Bytes = seq<Byte>

  /** The bytes `trim` strips when given no character list:
      NUL, tab, line feed, vertical tab, carriage return and space. */
  predicate IsTrimSpace(c: Byte) {
    c as int == 0 || 9 <= c as int <= 11 || c as int == 13 || c == ' '
  }

  /** PHP `empty()` applied to a string: true for "" and for "0". */
  predicate PhpEmpty(s: Bytes) {
    s == [] || s == "0"
  }

  /** `ltrim`: drops the leading run of trim-space bytes, and nothing else. */
  function TrimLeft(s: Bytes): (r: Bytes)
    ensures |r| <= |s| && r == s[|s| - |r|..]
    ensures forall k :: 0 <= k < |s| - |r| ==> IsTrimSpace(s[k])
    ensures r != [] ==> !IsTrimSpace(r[0])
  {
    if s != [] && IsTrimSpace(s[0]) then TrimLeft(s[1..]) else s
  }

  /** `rtrim`: drops the trailing run of trim-space bytes, and nothing else. */
  function TrimRight(s: Bytes): (r: Bytes)
    ensures |r| <= |s| && r == s[..|r|]
    ensures forall k :: |r| <= k < |s| ==> IsTrimSpace(s[k])
    ensures r != [] ==> !IsTrimSpace(r[|r| - 1])
  {
    if s != [] && IsTrimSpace(s[|s| - 1]) then TrimRight(s[..|s| - 1]) else s
  }

  /** `t` is an infix of `s` that starts at `i`, with only trim-space bytes
      on either side of it. */
  predicate StripsAt(s: Bytes, t: Bytes, i: int) {
    && 0 <= i <= |s| - |t|
    && s[i..i + |t|] == t
    && (forall k :: 0 <= k < i ==> IsTrimSpace(s[k]))
    && (forall k :: i + |t| <= k < |s| ==> IsTrimSpace(s[k]))
  }

  /** Neither end of `t` is a trim-space byte. */
  predicate Unpadded(t: Bytes) {
    t != [] ==> !IsTrimSpace(t[0]) && !IsTrimSpace(t[|t| - 1])
  }

  /** PHP `trim`: the infix left after removing trim-space bytes from both ends. */
  function Trim(s: Bytes): (r: Bytes)
    ensures StripsAt(s, r, |s| - |TrimLeft(s)|)
    ensures Unpadded(r)
  {
    var l := TrimLeft(s);
    var r := TrimRight(l);
    assert s[|s| - |l|..][..|r|] == s[|s| - |l|..|s| - |l| + |r|];
    r
  }

  /** Trimming is canonical: the only unpadded infix of `s` surrounded by
      trim-space bytes is `Trim(s)` itself. */
  lemma TrimIsTheUnpaddedStrip(s: Bytes, t: Bytes, i: int)
    requires StripsAt(s, t, i) && Unpadded(t)
    ensures Trim(s) == t
  {
  }

  /** Trimming a trimmed string changes nothing. */
  lemma TrimIdempotent(s: Bytes)
    ensures Trim(Trim(s)) == Trim(s)
  {
    var t := Trim(s);
    assert StripsAt(t, t, 0);
    TrimIsTheUnpaddedStrip(t, t, 0);
  }

  /** The bytes of the class `[a-zA-Z0-9_]`. */
  predicate IsWordByte(c: Byte) {
    'a' <= c <= 'z' || 'A' <= c <= 'Z' || '0' <= c <= '9' || c == '_'
  }

  /** A non-empty string made only of word bytes. */
  predicate IsWordString(s: Bytes) {
    s != [] && forall k :: 0 <= k < |s| ==> IsWordByte(s[k])
  }

  /** The length of the greedy match of `[a-zA-Z0-9_]*` at the start of `s`. */
  function WordRun(s: Bytes): (n: nat)
    ensures n <= |s|
    ensures forall k :: 0 <= k < n ==> IsWordByte(s[k])
    ensures n < |s| ==> !IsWordByte(s[n])
  {
    if s != [] && IsWordByte(s[0]) then 1 + WordRun(s[1..]) else 0
  }

  /** `preg_match('/^[a-zA-Z0-9_]+$/', s) === 1`. Without the D modifier,
      PCRE's `$` matches at the end of the subject and also just before a
      final line feed, so a word string followed by one "\n" matches too. */
  predicate MatchesUsernamePattern(s: Bytes) {
    var n := WordRun(s);
    n >= 1 && (n == |s| || (n == |s| - 1 && s[n] == '\n'))
  }

  /** The pattern accepts exactly the word strings, optionally followed by
      one line feed. */
  lemma UsernamePatternLanguage(s: Bytes)
    ensures MatchesUsernamePattern(s) <==>
      IsWordString(s) || (|s| >= 2 && s[|s| - 1] == '\n' && IsWordString(s[..|s| - 1]))
  {
  }

  /** On a string that does not end in trim space, in particular on any
      trimmed string, the final-line-feed allowance never applies. */
  lemma UnpaddedUsernamePattern(s: Bytes)
    requires Unpadded(s)
    ensures MatchesUsernamePattern(s) <==> IsWordString(s)
  {
    UsernamePatternLanguage(s);
  }
}
