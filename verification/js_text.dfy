/**
 * The few JavaScript string and array primitives the chat server leans on:
 * `startsWith`, the `<` order that `Array.prototype.sort` uses on strings, and
 * `slice(-n)`.
 */
module JsText {

  /** `s.startsWith(prefix)`: `s` is `prefix` followed by something. */
  predicate StartsWith(s: string, prefix: string): (b: bool)
    ensures b <==> exists rest :: s == prefix + rest
  {
    var b := |prefix| <= |s| && s[..|prefix|] == prefix;
    assert b ==> s == prefix + s[|prefix|..];
    b
  }

  /** `a < b` on strings: lexicographic by character code, a proper prefix first. */
  predicate Less(a: string, b: string): (r: bool)
    ensures r ==> a != b
    ensures |a| < |b| && b[..|a|] == a ==> r
  {
    if b == [] then false
    else if a == [] then true
    else if a[0] != b[0] then a[0] < b[0]
    else Less(a[1..], b[1..])
  }

  /** No two strings are each below the other. */
  lemma {:induction false} LessAsymmetric(a: string, b: string)
    ensures !(Less(a, b) && Less(b, a))
  {
    if a != [] && b != [] && a[0] == b[0] {
      LessAsymmetric(a[1..], b[1..]);
    }
  }

  /** Any two different strings are ordered one way or the other. */
  lemma {:induction false} LessTotal(a: string, b: string)
    ensures a == b || Less(a, b) || Less(b, a)
  {
    if a != [] && b != [] && a[0] == b[0] {
      LessTotal(a[1..], b[1..]);
      if a[1..] == b[1..] {
        assert a == [a[0]] + a[1..] && b == [b[0]] + b[1..];
      }
    }
  }

  function Min(a: int, b: int): int {
    if a < b then a else b
  }

  /**
   * `s.slice(-limit)`. A positive limit keeps the last `limit` elements (all of
   * them when there are fewer); `-0` is `0`, so a zero limit keeps everything;
   * a negative limit drops the first `-limit` elements.
   */
  function TakeLast<T>(s: seq<T>, limit: int): (r: seq<T>)
    ensures |r| <= |s| && r == s[|s| - |r|..]
    ensures limit > 0 ==> |r| == Min(limit, |s|)
    ensures limit == 0 ==> r == s
    ensures limit < 0 ==> |r| == |s| - Min(-limit, |s|)
  {
    if limit > 0 then (if limit < |s| then s[|s| - limit..] else s)
    else if limit == 0 then s
    else if -limit < |s| then s[-limit..]
    else []
  }
}
