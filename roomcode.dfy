/**
 * How `join-game` reads its room id argument (backend/index.js:33, 55):
 * `roomId ? roomId.trim() : null`, then "create a room" when the result is
 * null or empty. JavaScript's `String.prototype.trim` strips white space and
 * line terminators from both ends.
 */
module RoomCode {
  import opened Options

  /** The characters `trim` strips: ECMAScript WhiteSpace and LineTerminator. */
  predicate IsWhitespace(c: char)
  {
    c == '\U{0009}' || c == '\U{000A}' || c == '\U{000B}' || c == '\U{000C}' || c == '\U{000D}'
    || c == '\U{0020}' || c == '\U{00A0}' || c == '\U{1680}'
    || ('\U{2000}' <= c <= '\U{200A}')
    || c == '\U{2028}' || c == '\U{2029}' || c == '\U{202F}' || c == '\U{205F}'
    || c == '\U{3000}' || c == '\U{FEFF}'
  }

  ghost predicate AllWhitespace(s: string)
  {
    forall k :: 0 <= k < |s| ==> IsWhitespace(s[k])
  }

  /** Strips leading white space: the longest suffix that does not start with white space. */
  function TrimStart(s: string): (t: string)
    ensures |t| <= |s| && t == s[|s| - |t|..]
    ensures AllWhitespace(s[..|s| - |t|])
    ensures t == [] || !IsWhitespace(t[0])
  {
    if s != [] && IsWhitespace(s[0]) then TrimStart(s[1..]) else s
  }

  /** Strips trailing white space: the longest prefix that does not end with white space. */
  function TrimEnd(s: string): (t: string)
    ensures |t| <= |s| && t == s[..|t|]
    ensures AllWhitespace(s[|t|..])
    ensures t == [] || !IsWhitespace(t[|t| - 1])
  {
    if s != [] && IsWhitespace(s[|s| - 1]) then TrimEnd(s[..|s| - 1]) else s
  }

  /**
   * `t` is `s` with white space removed at both ends: a slice of `s` with only
   * white space before and after it, neither starting nor ending with white space.
   */
  ghost predicate IsTrimmed(s: string, t: string)
  {
    && (exists i :: 0 <= i <= i + |t| <= |s| && t == s[i..i + |t|] && AllWhitespace(s[..i]) && AllWhitespace(s[i + |t|..]))
    && (t != [] ==> !IsWhitespace(t[0]) && !IsWhitespace(t[|t| - 1]))
  }

  /** `s.trim()`; it is empty exactly when `s` is all white space. */
  function Trim(s: string): (t: string)
    ensures IsTrimmed(s, t)
    ensures t == [] <==> AllWhitespace(s)
  {
    var u := TrimStart(s);
    var t := TrimEnd(u);
    TrimmedSlice(s, |s| - |u|, u, t);
    t
  }

  /** Stripping a white space prefix and then a white space suffix trims `s`. */
  lemma TrimmedSlice(s: string, i: nat, u: string, t: string)
    requires i <= |s| && u == s[i..] && AllWhitespace(s[..i]) && (u == [] || !IsWhitespace(u[0]))
    requires |t| <= |u| && t == u[..|t|] && AllWhitespace(u[|t|..]) && (t == [] || !IsWhitespace(t[|t| - 1]))
    ensures IsTrimmed(s, t)
    ensures t == [] <==> AllWhitespace(s)
  {
    assert t == s[i..i + |t|];
    assert s[i + |t|..] == u[|t|..];
    if t == [] {
      assert u[0..] == u;
      assert s[..i] == s;
    } else {
      assert t[0] == s[i];
    }
  }

  /**
   * The room a `join-game` request names: None asks for a new room (the
   * argument is null, empty or white space only), otherwise the trimmed id.
   */
  function RequestedRoom(roomId: Option<string>): (r: Option<string>)
    ensures r == None <==> roomId == None || AllWhitespace(roomId.value)
    ensures r.Some? ==> roomId.Some? && r.value == Trim(roomId.value) && r.value != []
  {
    match roomId
    case None => None
    case Some(s) =>
      if s == [] then None
      else
        var t := Trim(s);
        if t == [] then None else Some(t)
  }
}
