/** Optional values: a JSON body field that is absent (undefined) is `None`. */
module Wrappers {
  datatype Option<+T> = None | Some(value: T)

  /** A document's `_id`, shared by both collections. */
  type Id = nat
}

/** The string operations the source relies on: JavaScript truthiness of a string,
    `String.prototype.trim` (the trim setter of the schemas), `toLowerCase` (the
    lowercase setter) and `String.prototype.replace` with a string pattern. */
module Text {
  import opened Wrappers

  /** `!x` is false for a string field exactly when it is present and non-empty. */
  predicate Present(x: Option<string>) {
    x.Some? && x.value != ""
  }

  /** The whitespace `trim` removes, restricted to ASCII. */
  predicate IsSpace(c: char) {
    c == ' ' || c == '\t' || c == '\n' || c == '\r' || c == '\U{000B}' || c == '\U{000C}'
  }

  /** A string with no whitespace at either end. */
  predicate Trimmed(s: string) {
    s == [] || (!IsSpace(s[0]) && !IsSpace(s[|s| - 1]))
  }

  function TrimStart(s: string): (r: string)
    ensures |r| <= |s| && r == s[|s| - |r|..]
    ensures r == [] || !IsSpace(r[0])
    ensures forall i :: 0 <= i < |s| - |r| ==> IsSpace(s[i])
  {
    if s != [] && IsSpace(s[0]) then TrimStart(s[1..]) else s
  }

  function TrimEnd(s: string): (r: string)
    ensures |r| <= |s| && r == s[..|r|]
    ensures r == [] || !IsSpace(r[|r| - 1])
    ensures forall i :: |r| <= i < |s| ==> IsSpace(s[i])
  {
    if s != [] && IsSpace(s[|s| - 1]) then TrimEnd(s[..|s| - 1]) else s
  }

  /** `r` is the infix of `s` starting at `i`, and everything outside it is whitespace. */
  predicate InfixWithin(s: string, r: string, i: int) {
    && 0 <= i <= |s| - |r|
    && r == s[i..i + |r|]
    && (forall k :: 0 <= k < i ==> IsSpace(s[k]))
    && (forall k :: i + |r| <= k < |s| ==> IsSpace(s[k]))
  }

  /** `s.trim()`: `s` without the whitespace at either end. */
  function Trim(s: string): (r: string)
    ensures Trimmed(r) && |r| <= |s|
  {
    TrimEnd(TrimStart(s))
  }

  /** What `trim` cuts off is whitespace only, and what it keeps is an infix of `s`. */
  lemma TrimIsInfix(s: string)
    ensures exists i :: InfixWithin(s, Trim(s), i)
  {
    var t := TrimStart(s);
    var r := TrimEnd(t);
    assert r == s[|s| - |t|..][..|r|];
    assert r == s[|s| - |t|..|s| - |t| + |r|];
    assert Trim(s) == r;
    assert InfixWithin(s, r, |s| - |t|);
  }

  /** Trimming a trimmed string changes nothing, so trimming twice is trimming once. */
  lemma {:induction false} TrimFixesTrimmed(s: string)
    requires Trimmed(s)
    ensures Trim(s) == s
  {
    assert TrimStart(s) == s;
    assert TrimEnd(s) == s;
  }

  lemma TrimIdempotent(s: string)
    ensures Trim(Trim(s)) == Trim(s)
  {
    TrimFixesTrimmed(Trim(s));
  }

  /** Leading whitespace does not survive `trim`. */
  lemma TrimSkipsLeadingSpace(c: char, s: string)
    requires IsSpace(c)
    ensures Trim([c] + s) == Trim(s)
  {
    assert ([c] + s)[1..] == s;
  }

  /** A schema's `trim: true` setter, applied to a field when it is assigned. */
  function SetTrimmed(x: Option<string>): (r: Option<string>)
    ensures r.Some? <==> x.Some?
    ensures r.Some? ==> Trimmed(r.value) && r.value == Trim(x.value)
  {
    match x
    case None => None
    case Some(s) => Some(Trim(s))
  }

  function LowerChar(c: char): char {
    if 'A' <= c <= 'Z' then (c as int - 'A' as int + 'a' as int) as char else c
  }

  /** A string with no upper-case ASCII letter. */
  predicate LowerCase(s: string) {
    forall i :: 0 <= i < |s| ==> !('A' <= s[i] <= 'Z')
  }

  /** `s.toLowerCase()` on ASCII letters. */
  function Lower(s: string): (r: string)
    ensures |r| == |s|
    ensures forall i :: 0 <= i < |s| ==> r[i] == LowerChar(s[i])
    ensures LowerCase(r)
  {
    if s == [] then [] else [LowerChar(s[0])] + Lower(s[1..])
  }

  /** Lowercasing leaves whitespace alone, so a trimmed string stays trimmed. */
  lemma LowerKeepsTrimmed(s: string)
    requires Trimmed(s)
    ensures Trimmed(Lower(s))
  {
  }

  /** True when `p` occurs in `s` at position `i`. */
  predicate OccursAt(s: string, p: string, i: int) {
    0 <= i && i + |p| <= |s| && s[i..i + |p|] == p
  }

  function IndexFrom(s: string, p: string, i: nat): (r: Option<nat>)
    requires i <= |s|
    ensures r.Some? ==> i <= r.value && OccursAt(s, p, r.value)
                        && forall j :: i <= j < r.value ==> !OccursAt(s, p, j)
    ensures r.None? ==> forall j :: i <= j ==> !OccursAt(s, p, j)
    decreases |s| - i
  {
    if i + |p| > |s| then None
    else if s[i..i + |p|] == p then Some(i)
    else IndexFrom(s, p, i + 1)
  }

  /** The position of the first occurrence of `p` in `s`, if any. */
  function IndexOf(s: string, p: string): (r: Option<nat>)
    ensures r.Some? ==> OccursAt(s, p, r.value) && forall j :: 0 <= j < r.value ==> !OccursAt(s, p, j)
    ensures r.None? ==> forall j :: !OccursAt(s, p, j)
  {
    IndexFrom(s, p, 0)
  }

  /** `s.replace(p, rep)` with a string pattern: only the first occurrence is replaced,
      wherever it is; without an occurrence `s` is returned unchanged. `rep` is inserted
      literally: the `$&`, `$$`, `` $` `` and `$'` patterns of a JavaScript replacement
      string are not interpreted, which is exact for the empty replacement the middleware
      passes. */
  function ReplaceFirst(s: string, p: string, rep: string): (r: string)
    ensures (forall j :: !OccursAt(s, p, j)) ==> r == s
    ensures forall i :: OccursAt(s, p, i) && (forall j :: 0 <= j < i ==> !OccursAt(s, p, j))
                        ==> r == s[..i] + rep + s[i + |p|..]
  {
    match IndexOf(s, p)
    case None => s
    case Some(i) => s[..i] + rep + s[i + |p|..]
  }

  /** A pattern at the very front is the first occurrence, and replacing it by nothing
      leaves what follows it. */
  lemma ReplaceFirstAtFront(p: string, s: string)
    ensures ReplaceFirst(p + s, p, "") == s
  {
    var h := p + s;
    assert h[0..|p|] == p;
    assert OccursAt(h, p, 0);
    assert h[..0] + "" + h[|p|..] == s;
  }
}

/** The outcome of a request handler: the status code it answers with and its payload. */
module Http {
  datatype Response<+T> =
    | Ok(value: T)                 // 200
    | Created(value: T)            // 201
    | BadRequest(message: string)  // 400
    | Unauthorized(message: string) // 401
    | Forbidden(message: string)   // 403
    | NotFound(message: string)    // 404
    | ServerError(message: string) // 500
}
