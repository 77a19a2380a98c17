/**
 * Character and string helpers the generator borrows from Go's `unicode`
 * and `strings` packages, restricted to ASCII: a letter is upper case when
 * it lies in 'A'..'Z' and lower case when it lies in 'a'..'z'.
 */
module Text {

  /**
   * `unicode.IsUpper`, ASCII only: the capitals 'A'..'Z'. No character is
   * both upper and lower case, and each capital has its small letter 32
   * code points above it.
   */
  predicate IsUpper(c: char)
    ensures IsUpper(c) ==> !IsLower(c)
    ensures IsUpper(c) ==> 'a' as int <= c as int + 32 <= 'z' as int
  {
    'A' <= c <= 'Z'
  }

  /** `unicode.IsLower`, ASCII only: the small letters 'a'..'z', each with its capital 32 code points below it. */
  predicate IsLower(c: char)
    ensures IsLower(c) ==> 'A' as int <= c as int - 32 <= 'Z' as int
  {
    'a' <= c <= 'z'
  }

  /** `unicode.ToLower`, ASCII only: upper-case letters move to lower case, every other character is kept. */
  function ToLower(c: char): (r: char)
    ensures !IsUpper(r)
    ensures IsUpper(c) ==> IsLower(r)
    ensures IsUpper(c) ==> r as int - 'a' as int == c as int - 'A' as int
    ensures !IsUpper(c) ==> r == c
  {
    if IsUpper(c) then (c as int + 32) as char else c
  }

  /** No character of `s` is an upper-case letter. */
  predicate NoUpper(s: string) {
    forall k :: 0 <= k < |s| ==> !IsUpper(s[k])
  }

  /** `strings.ToLower`: every character lowered; a no-op on a string that is already lower case. */
  function Lower(s: string): (r: string)
    ensures |r| == |s| && NoUpper(r)
    ensures forall k :: 0 <= k < |s| ==> r[k] == ToLower(s[k])
    ensures NoUpper(s) ==> r == s
  {
    seq(|s|, k requires 0 <= k < |s| => ToLower(s[k]))
  }

  /** `strings.HasSuffix`: `s` is at least as long as `suffix` and ends with it. */
  predicate HasSuffix(s: string, suffix: string) {
    |s| >= |suffix| && s[|s| - |suffix|..] == suffix
  }

  /** `strings.Join`: the parts in order, `sep` between neighbours, "" for no parts. */
  function Join(parts: seq<string>, sep: string): (r: string)
    ensures |parts| == 0 ==> r == ""
    ensures |parts| == 1 ==> r == parts[0]
  {
    if |parts| == 0 then ""
    else if |parts| == 1 then parts[0]
    else parts[0] + sep + Join(parts[1..], sep)
  }

  /** The summed length of all parts. */
  function TotalLength(parts: seq<string>): nat
  {
    if parts == [] then 0 else |parts[0]| + TotalLength(parts[1..])
  }

  /**
   * Joining several parts keeps every character of every part and adds one
   * separator between each neighbouring pair, and the result starts with
   * the first part followed by the separator.
   */
  lemma {:induction false} JoinLength(parts: seq<string>, sep: string)
    requires |parts| > 0
    ensures |Join(parts, sep)| == TotalLength(parts) + (|parts| - 1) * |sep|
    ensures |parts| > 1 ==> parts[0] + sep <= Join(parts, sep)
  {
    if |parts| > 1 {
      JoinLength(parts[1..], sep);
    }
  }

  /** Every part with `p` written in front of it. */
  function Prefixed(parts: seq<string>, p: string): seq<string>
  {
    seq(|parts|, k requires 0 <= k < |parts| => p + parts[k])
  }

  /**
   * Joining with `sep + p` and writing one more `p` in front is the same as
   * prefixing every part with `p` and joining with `sep`; this is how the
   * placeholder list `:a, :b` of an INSERT statement is built.
   */
  lemma {:induction false} JoinPrefixed(parts: seq<string>, p: string, sep: string)
    requires |parts| > 0
    ensures p + Join(parts, sep + p) == Join(Prefixed(parts, p), sep)
  {
    if |parts| > 1 {
      JoinPrefixed(parts[1..], p, sep);
      assert Prefixed(parts, p)[1..] == Prefixed(parts[1..], p);
    }
  }
}
