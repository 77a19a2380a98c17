/**
 * The name normaliser: CamelCase to snake_case, the English plural
 * heuristic, and their composition that turns a struct name into a table
 * name.
 */
module Naming {
  import opened Text

  // ---------------------------------------------------------------------
  // SnakeCase
  // ---------------------------------------------------------------------

  /** An underscore goes before position `i`: an upper-case letter right after a lower-case one. */
  predicate Boundary(s: string, i: int)
    requires 0 <= i < |s|
  {
    0 < i && IsUpper(s[i]) && IsLower(s[i - 1])
  }

  /** What one pass of the conversion writes for the character at position `i`. */
  function Emit(s: string, i: int): string
    requires 0 <= i < |s|
  {
    (if Boundary(s, i) then "_" else "") + [ToLower(s[i])]
  }

  /** The snake_case conversion, character by character from the left. */
  function SnakeCased(s: string): string
    decreases |s|
  {
    if s == [] then "" else SnakeCased(s[..|s| - 1]) + Emit(s, |s| - 1)
  }

  /** The positions where the conversion inserts an underscore. */
  function Boundaries(s: string): set<int>
  {
    set i | 0 < i < |s| && Boundary(s, i)
  }

  /** `s` with every underscore deleted. */
  function WithoutUnderscores(s: string): string
    decreases |s|
  {
    if s == [] then ""
    else WithoutUnderscores(s[..|s| - 1]) + (if s[|s| - 1] == '_' then "" else [s[|s| - 1]])
  }

  /**
   * The generator's SnakeCase: a single pass that appends to a builder and
   * remembers the previous character.
   */
  method SnakeCase(s: string) returns (r: string)
    ensures r == SnakeCased(s)
  {
    var str := "";
    var prev: char := '\0';
    for i := 0 to |s|
      invariant str == SnakeCased(s[..i])
      invariant 0 < i ==> prev == s[i - 1]
    {
      var c := s[i];
      if i > 0 && IsUpper(c) && IsLower(prev) {
        str := str + "_";
      }
      str := str + [ToLower(c)];
      prev := c;
      assert s[..i + 1][..i] == s[..i];
    }
    assert s[..|s|] == s;
    r := str;
  }

  /** The output holds no upper-case letter. */
  lemma {:induction false} SnakeCasedNoUpper(s: string)
    ensures NoUpper(SnakeCased(s))
    decreases |s|
  {
    if s != [] {
      SnakeCasedNoUpper(s[..|s| - 1]);
    }
  }

  /** The first output character is the lowered first input character: no underscore is inserted in front. */
  lemma {:induction false} SnakeCasedHead(s: string)
    requires s != []
    ensures |SnakeCased(s)| > 0 && SnakeCased(s)[0] == ToLower(s[0])
    decreases |s|
  {
    if |s| > 1 {
      SnakeCasedHead(s[..|s| - 1]);
    }
  }

  /** The boundaries of `s` are those of `s` without its last character, plus possibly the last position. */
  lemma BoundariesSnoc(s: string)
    requires s != []
    ensures Boundaries(s) == Boundaries(s[..|s| - 1]) + (if Boundary(s, |s| - 1) then {|s| - 1} else {})
  {
    var t := s[..|s| - 1];
    forall i | 0 < i < |t|
      ensures Boundary(t, i) == Boundary(s, i)
    {
    }
  }

  /** The output is one character longer than the input for every boundary. */
  lemma {:induction false} SnakeCasedLength(s: string)
    ensures |SnakeCased(s)| == |s| + |Boundaries(s)|
    decreases |s|
  {
    if s != [] {
      var n := |s| - 1;
      SnakeCasedLength(s[..n]);
      BoundariesSnoc(s);
      assert n !in Boundaries(s[..n]);
    }
  }

  /** On a string with no upper-case letter the conversion changes nothing. */
  lemma {:induction false} SnakeCasedIdentity(s: string)
    requires NoUpper(s)
    ensures SnakeCased(s) == s
    decreases |s|
  {
    if s != [] {
      var n := |s| - 1;
      SnakeCasedIdentity(s[..n]);
      assert s[..n] + [s[n]] == s;
    }
  }

  /** Converting twice is converting once. */
  lemma SnakeCasedIdempotent(s: string)
    ensures SnakeCased(SnakeCased(s)) == SnakeCased(s)
  {
    SnakeCasedNoUpper(s);
    SnakeCasedIdentity(SnakeCased(s));
  }

  lemma LowerSnoc(s: string)
    requires s != []
    ensures Lower(s) == Lower(s[..|s| - 1]) + [ToLower(s[|s| - 1])]
  {
  }

  /** The conversion equals plain lowering exactly when it finds no boundary. */
  lemma {:induction false} SnakeCasedIsLowerIff(s: string)
    ensures SnakeCased(s) == Lower(s) <==> Boundaries(s) == {}
    decreases |s|
  {
    SnakeCasedLength(s);
    if s != [] && Boundaries(s) == {} {
      var n := |s| - 1;
      BoundariesSnoc(s);
      SnakeCasedIsLowerIff(s[..n]);
      LowerSnoc(s);
    }
  }

  lemma {:induction false} WithoutUnderscoresConcat(a: string, b: string)
    ensures WithoutUnderscores(a + b) == WithoutUnderscores(a) + WithoutUnderscores(b)
    decreases |b|
  {
    if b != [] {
      var n := |b| - 1;
      var ab := a + b;
      assert ab[..|ab| - 1] == a + b[..n];
      assert ab[|ab| - 1] == b[n];
      WithoutUnderscoresConcat(a, b[..n]);
      assert WithoutUnderscores(ab) == WithoutUnderscores(a + b[..n]) + WithoutUnderscores([b[n]]);
      assert WithoutUnderscores(b) == WithoutUnderscores(b[..n]) + WithoutUnderscores([b[n]]);
    } else {
      assert a + b == a;
    }
  }

  /**
   * Apart from lowering, the conversion only inserts underscores: with all
   * underscores deleted, output and lowered input agree.
   */
  lemma {:induction false} SnakeCasedOnlyInsertsUnderscores(s: string)
    ensures WithoutUnderscores(SnakeCased(s)) == WithoutUnderscores(Lower(s))
    decreases |s|
  {
    if s != [] {
      var n := |s| - 1;
      var c := ToLower(s[n]);
      SnakeCasedOnlyInsertsUnderscores(s[..n]);
      WithoutUnderscoresConcat(SnakeCased(s[..n]), Emit(s, n));
      WithoutUnderscoresConcat(Lower(s[..n]), [c]);
      LowerSnoc(s);
      if Boundary(s, n) {
        WithoutUnderscoresConcat("_", [c]);
      }
    }
  }

  /** Appending lower-case text after the last character appends it unchanged. */
  lemma {:induction false} SnakeCasedAppendLower(s: string, t: string)
    requires NoUpper(t)
    ensures SnakeCased(s + t) == SnakeCased(s) + t
    decreases |t|
  {
    if t != [] {
      var n := |t| - 1;
      var st := s + t;
      assert st[..|st| - 1] == s + t[..n];
      SnakeCasedAppendLower(s, t[..n]);
      assert !Boundary(st, |st| - 1);
      assert SnakeCased(st) == SnakeCased(s + t[..n]) + [t[n]];
      assert t[..n] + [t[n]] == t;
    } else {
      assert s + t == s;
    }
  }

  /** A lower-to-upper boundary: the upper-case letter becomes an underscore and its lower-case form. */
  lemma SnakeCasedCamelStep(s: string, c: char, t: string)
    requires s != [] && IsLower(s[|s| - 1]) && IsUpper(c) && NoUpper(t)
    ensures SnakeCased(s + [c] + t) == SnakeCased(s) + "_" + [ToLower(c)] + t
  {
    var sc := s + [c];
    assert sc[..|sc| - 1] == s;
    assert Boundary(sc, |s|);
    SnakeCasedAppendLower(sc, t);
  }

  /** A capitalised word is only lowered. */
  lemma SnakeCasedWord(c: char, t: string)
    requires NoUpper(t)
    ensures SnakeCased([c] + t) == [ToLower(c)] + t
  {
    SnakeCasedAppendLower([c], t);
  }

  /** Example from the generator's tests: a lower-to-upper boundary gets an underscore. */
  lemma SnakeCasedHelloWorld()
    ensures SnakeCased("helloWorld") == "hello_world"
  {
    SnakeCasedHello();
    SnakeCasedCamelStep("hello", 'W', "orld");
    assert ToLower('W') == 'w';
    assert "hello" + "_" + ['w'] + "orld" == "hello_world";
    assert "hello" + ['W'] + "orld" == "helloWorld";
  }

  lemma SnakeCasedHello()
    ensures SnakeCased("hello") == "hello"
  {
    assert NoUpper("hello");
    SnakeCasedIdentity("hello");
  }

  /** An upper-case run gets no underscore inside it. */
  lemma SnakeCasedAcronym()
    ensures SnakeCased("ID") == "id"
  {
  }

  /** Only the lower-to-upper boundary before the acronym gets an underscore. */
  lemma SnakeCasedUserID()
    ensures SnakeCased("UserID") == "user_id"
  {
    SnakeCasedWord('U', "ser");
    assert ToLower('U') == 'u' && ToLower('I') == 'i' && ToLower('D') == 'd';
    assert ['U'] + "ser" == "User" && ['u'] + "ser" == "user";
    SnakeCasedCamelStep("User", 'I', "");
    assert "User" + ['I'] + "" == "UserI" && "user" + "_" + ['i'] + "" == "user_i";
    var s := "UserID";
    assert s[..5] == "UserI" && !Boundary(s, 5);
    assert "user_i" + ['d'] == "user_id";
  }

  // ---------------------------------------------------------------------
  // Pluralize
  // ---------------------------------------------------------------------

  /** `strings.HasSuffix(s, "y")`: the last one-character slice is "y", so `s` is some word plus "y". */
  predicate EndsWithY(s: string)
    ensures EndsWithY(s) <==> HasSuffix(s, "y")
  {
    |s| > 0 && s[|s| - 1] == 'y'
  }

  /** The plural heuristic: a trailing "y" becomes "ies", anything else gets an "s". */
  function Pluralize(s: string): (r: string)
    ensures |r| > 0 && r[|r| - 1] == 's'
    ensures EndsWithY(s) ==> r == s[..|s| - 1] + "ies"
    ensures !EndsWithY(s) ==> r == s + "s"
    ensures NoUpper(s) ==> NoUpper(r)
  {
    if EndsWithY(s) then s[..|s| - 1] + "ies" else s + "s"
  }

  /** Undoes the plural heuristic: "ies" back to "y", otherwise drops the last character. */
  function Singularize(p: string): string
  {
    if HasSuffix(p, "ies") then p[..|p| - 3] + "y"
    else if |p| > 0 then p[..|p| - 1]
    else p
  }

  /**
   * The plural can be undone exactly when the word does not end in "ie":
   * for such words "ie" + "s" reads as the plural of a word ending in "y".
   */
  lemma PluralizeRoundTrip(s: string)
    ensures Singularize(Pluralize(s)) == s <==> !HasSuffix(s, "ie")
  {
    if EndsWithY(s) {
      PluralizeRoundTripY(s);
    } else {
      PluralizeRoundTripS(s);
    }
  }

  /** A word ending in "y" comes back from "ies", and does not end in "ie". */
  lemma PluralizeRoundTripY(s: string)
    requires EndsWithY(s)
    ensures Singularize(Pluralize(s)) == s && !HasSuffix(s, "ie")
  {
    var p := Pluralize(s);
    assert p[|p| - 3..] == "ies";
    assert p[..|p| - 3] == s[..|s| - 1];
    assert s[..|s| - 1] + "y" == s;
    assert |s| >= 2 ==> s[|s| - 2..][1] == 'y';
  }

  /** A word that got a plain "s" comes back unless it ends in "ie", whose plural reads as "ies". */
  lemma PluralizeRoundTripS(s: string)
    requires !EndsWithY(s)
    ensures Singularize(Pluralize(s)) == s <==> !HasSuffix(s, "ie")
  {
    var p := Pluralize(s);
    assert p[..|p| - 1] == s;
    if |s| >= 2 {
      assert p[|p| - 3..] == s[|s| - 2..] + "s";
    }
    if HasSuffix(s, "ie") {
      assert HasSuffix(p, "ies");
      assert |Singularize(p)| == |s| - 1;
    }
  }

  /** Two different names can share a plural. */
  lemma PluralizeCollision()
    ensures Pluralize("movie") == Pluralize("movy") == "movies"
  {
  }

  /** Examples for the plural heuristic, the literal rule included. */
  lemma PluralizeExamples()
    ensures Pluralize("cat") == "cats"
    ensures Pluralize("city") == "cities"
    ensures Pluralize("bus") == "buss"
  {
  }

  // ---------------------------------------------------------------------
  // normalizeTableName
  // ---------------------------------------------------------------------

  /** Struct name to table name: snake_case first, then pluralize. */
  function NormalizeTableName(name: string): (r: string)
    ensures |r| > 0 && r[|r| - 1] == 's'
    ensures NoUpper(r)
  {
    SnakeCasedNoUpper(name);
    Pluralize(SnakeCased(name))
  }

  /** Examples of table names from the generator's tests. */
  lemma NormalizeTableNameUser()
    ensures NormalizeTableName("User") == "users"
  {
    SnakeCasedWord('U', "ser");
    assert ToLower('U') == 'u';
    assert ['U'] + "ser" == "User" && ['u'] + "ser" == "user";
  }

  lemma NormalizeTableNamePostCount()
    ensures NormalizeTableName("PostCount") == "post_counts"
  {
    SnakeCasedWord('P', "ost");
    assert ToLower('P') == 'p' && ToLower('C') == 'c';
    assert ['P'] + "ost" == "Post" && ['p'] + "ost" == "post";
    SnakeCasedCamelStep("Post", 'C', "ount");
    assert "Post" + ['C'] + "ount" == "PostCount" && "post" + "_" + ['c'] + "ount" == "post_count";
  }

  /** The example in the comment above normalizeTableName. */
  lemma NormalizeTableNameReviewPost()
    ensures NormalizeTableName("ReviewPost") == "review_posts"
  {
    SnakeCasedWord('R', "eview");
    assert ToLower('R') == 'r' && ToLower('P') == 'p';
    assert ['R'] + "eview" == "Review" && ['r'] + "eview" == "review";
    SnakeCasedCamelStep("Review", 'P', "ost");
    assert "Review" + ['P'] + "ost" == "ReviewPost" && "review" + "_" + ['p'] + "ost" == "review_post";
  }
}
