/**
 * Text helpers over `string` (= `seq<char>`): substring search from the end
 * (Rust's `str::rfind`), splitting at separator characters (what the CSV
 * reader does with its delimiter and line terminators) and digits in bases
 * up to 16.
 */
module Text {
  import opened Wrappers

  /** No element occurs twice. */
  predicate Distinct(s: seq<string>) {
    forall i, j :: 0 <= i < j < |s| ==> s[i] != s[j]
  }

  /** `s` contains none of the characters in `seps`. */
  predicate Avoids(s: string, seps: set<char>) {
    forall i :: 0 <= i < |s| ==> s[i] !in seps
  }

  /** `pat` occurs in `s` starting at index `j`. */
  predicate OccursAt(s: string, pat: string, j: int) {
    0 <= j && j + |pat| <= |s| && s[j..j + |pat|] == pat
  }

  /** The start of the last occurrence of `pat` in `s`, as `str::rfind` returns it. */
  function LastIndexOf(s: string, pat: string): (r: Option<nat>)
    ensures r.Some? ==> r.value + |pat| <= |s|
  {
    if |pat| > |s| then None else LastIndexAtOrBefore(s, pat, |s| - |pat|)
  }

  /** The last occurrence of `pat` in `s` that starts at or before `j`. */
  function LastIndexAtOrBefore(s: string, pat: string, j: nat): (r: Option<nat>)
    requires j + |pat| <= |s|
    ensures r.Some? ==> r.value <= j
    decreases j
  {
    if s[j..j + |pat|] == pat then Some(j)
    else if j == 0 then None
    else LastIndexAtOrBefore(s, pat, j - 1)
  }

  lemma {:induction false} LastIndexAtOrBeforeSpec(s: string, pat: string, j: nat)
    requires j + |pat| <= |s|
    ensures var r := LastIndexAtOrBefore(s, pat, j);
            && (r.Some? ==> r.value <= j && OccursAt(s, pat, r.value))
            && (r.Some? ==> forall k :: r.value < k <= j ==> !OccursAt(s, pat, k))
            && (r.None? ==> forall k :: k <= j ==> !OccursAt(s, pat, k))
    decreases j
  {
    if s[j..j + |pat|] != pat && j > 0 {
      LastIndexAtOrBeforeSpec(s, pat, j - 1);
    }
  }

  /**
   * `rfind` finds an occurrence of `pat` exactly when there is one, and no
   * occurrence starts after the one it finds.
   */
  lemma LastIndexOfSpec(s: string, pat: string)
    ensures var r := LastIndexOf(s, pat);
            && (r.Some? ==> OccursAt(s, pat, r.value))
            && (r.Some? ==> forall j :: r.value < j ==> !OccursAt(s, pat, j))
            && (r.None? ==> forall j :: !OccursAt(s, pat, j))
  {
    if |pat| <= |s| {
      LastIndexAtOrBeforeSpec(s, pat, |s| - |pat|);
    }
  }

  /**
   * The pieces of `s` between separator characters: every separator ends a
   * piece, so a string with n separators has n + 1 pieces (some possibly empty).
   */
  function Split(s: string, seps: set<char>): (r: seq<string>)
    ensures |r| > 0
    decreases |s|
  {
    if s == [] then [""]
    else
      var rest := Split(s[1..], seps);
      if s[0] in seps then [""] + rest
      else [[s[0]] + rest[0]] + rest[1..]
  }

  /** The pieces glued back together, with `d` between neighbours. */
  function Join(parts: seq<string>, d: char): string
    requires |parts| > 0
    decreases |parts|
  {
    if |parts| == 1 then parts[0] else parts[0] + [d] + Join(parts[1..], d)
  }

  /** The non-empty elements of `ss`, in order. */
  function NonEmpty(ss: seq<string>): seq<string>
    decreases |ss|
  {
    if ss == [] then []
    else if ss[0] == [] then NonEmpty(ss[1..])
    else [ss[0]] + NonEmpty(ss[1..])
  }

  /** No piece contains a separator. */
  lemma {:induction false} SplitAvoids(s: string, seps: set<char>)
    ensures forall i :: 0 <= i < |Split(s, seps)| ==> Avoids(Split(s, seps)[i], seps)
    decreases |s|
  {
    if s != [] {
      SplitAvoids(s[1..], seps);
    }
  }

  /** The kept elements are exactly the non-empty ones. */
  lemma {:induction false} NonEmptyKeeps(ss: seq<string>)
    ensures forall i :: 0 <= i < |NonEmpty(ss)| ==> NonEmpty(ss)[i] != [] && NonEmpty(ss)[i] in ss
    ensures forall x :: x in ss && x != [] ==> x in NonEmpty(ss)
    decreases |ss|
  {
    if ss != [] {
      NonEmptyKeeps(ss[1..]);
      assert forall x :: x in ss ==> x == ss[0] || x in ss[1..];
    }
  }

  lemma {:induction false} SplitPlain(a: string, seps: set<char>)
    requires Avoids(a, seps)
    ensures Split(a, seps) == [a]
    decreases |a|
  {
    if a != [] {
      SplitPlain(a[1..], seps);
      assert [a[0]] + a[1..] == a;
    }
  }

  /** A separator cuts the string in two: the pieces of the part before it, then those of the part after it. */
  lemma {:induction false} SplitAtSeparator(a: string, c: char, b: string, seps: set<char>)
    requires c in seps
    ensures Split(a + [c] + b, seps) == Split(a, seps) + Split(b, seps)
    decreases |a|
  {
    var s := a + [c] + b;
    if a == [] {
      assert s[1..] == b;
    } else {
      assert s[0] == a[0] && s[1..] == a[1..] + [c] + b;
      SplitAtSeparator(a[1..], c, b, seps);
    }
  }

  /** Concatenation commutes with dropping the empty elements. */
  lemma {:induction false} NonEmptyAppend(xs: seq<string>, ys: seq<string>)
    ensures NonEmpty(xs + ys) == NonEmpty(xs) + NonEmpty(ys)
    decreases |xs|
  {
    if xs == [] {
      assert xs + ys == ys;
    } else {
      assert (xs + ys)[0] == xs[0] && (xs + ys)[1..] == xs[1..] + ys;
      NonEmptyAppend(xs[1..], ys);
    }
  }

  /** Splitting undoes joining, when the pieces hold no separator. */
  lemma {:induction false} SplitJoin(parts: seq<string>, d: char, seps: set<char>)
    requires |parts| > 0 && d in seps
    requires forall i :: 0 <= i < |parts| ==> Avoids(parts[i], seps)
    ensures Split(Join(parts, d), seps) == parts
    decreases |parts|
  {
    if |parts| == 1 {
      SplitPlain(parts[0], seps);
    } else {
      SplitAtSeparator(parts[0], d, Join(parts[1..], d), seps);
      SplitPlain(parts[0], seps);
      SplitJoin(parts[1..], d, seps);
      assert [parts[0]] + parts[1..] == parts;
    }
  }

  /** Joining undoes splitting at a single separator character. */
  lemma {:induction false} JoinSplit(s: string, d: char)
    ensures Join(Split(s, {d}), d) == s
    decreases |s|
  {
    if s != [] {
      var rest := Split(s[1..], {d});
      JoinSplit(s[1..], d);
      if s[0] == d {
        assert [d] + s[1..] == s;
      } else if |rest| == 1 {
        assert [s[0]] + s[1..] == s;
      } else {
        assert rest == [rest[0]] + rest[1..];
        assert Join(rest, d) == rest[0] + [d] + Join(rest[1..], d);
        assert [s[0]] + s[1..] == s;
      }
    }
  }

  /** The pieces of a string that avoids `other` avoid it too. */
  lemma {:induction false} SplitKeepsAvoiding(s: string, seps: set<char>, other: set<char>)
    requires Avoids(s, other)
    ensures forall i :: 0 <= i < |Split(s, seps)| ==> Avoids(Split(s, seps)[i], other)
    decreases |s|
  {
    if s != [] {
      SplitKeepsAvoiding(s[1..], seps, other);
    }
  }

  lemma AvoidsConcat(a: string, b: string, seps: set<char>)
    requires Avoids(a, seps) && Avoids(b, seps)
    ensures Avoids(a + b, seps)
  {
    forall i | 0 <= i < |a + b| ensures (a + b)[i] !in seps {
      if i >= |a| { assert (a + b)[i] == b[i - |a|]; }
    }
  }

  /** Joining pieces that avoid `seps` with a glue outside `seps` avoids `seps`. */
  lemma {:induction false} JoinAvoids(parts: seq<string>, d: char, seps: set<char>)
    requires |parts| > 0 && d !in seps
    requires forall i :: 0 <= i < |parts| ==> Avoids(parts[i], seps)
    ensures Avoids(Join(parts, d), seps)
    decreases |parts|
  {
    if |parts| > 1 {
      JoinAvoids(parts[1..], d, seps);
      AvoidsConcat(parts[0], [d], seps);
      AvoidsConcat(parts[0] + [d], Join(parts[1..], d), seps);
    }
  }

  /**
   * The value of `c` as a digit, as Rust's `char::to_digit` reads `0`-`9`,
   * `a`-`f` and `A`-`F`; 16 for any other character, which is a digit in no
   * radix up to 16.
   */
  function DigitValue(c: char): nat {
    if '0' <= c <= '9' then c as int - '0' as int
    else if 'a' <= c <= 'f' then c as int - 'a' as int + 10
    else if 'A' <= c <= 'F' then c as int - 'A' as int + 10
    else 16
  }

  /** Every character of `s` is a digit in base `radix`. */
  predicate AllDigits(s: string, radix: nat) {
    forall i :: 0 <= i < |s| ==> DigitValue(s[i]) < radix
  }

  /** The number written by digits in base `radix`, most significant first. */
  function DigitsValue(s: string, radix: nat): nat
    requires AllDigits(s, radix)
    decreases |s|
  {
    if s == [] then 0
    else DigitsValue(s[..|s| - 1], radix) * radix + DigitValue(s[|s| - 1])
  }

  /** The shortest decimal spelling of `n`. */
  function Decimal(n: nat): (r: string)
    ensures |r| > 0 && AllDigits(r, 10)
    ensures DigitsValue(r, 10) == n
    ensures |r| > 1 ==> r[0] != '0'
    decreases n
  {
    if n < 10 then [(n + '0' as int) as char]
    else
      var r := Decimal(n / 10) + [(n % 10 + '0' as int) as char];
      assert r[..|r| - 1] == Decimal(n / 10);
      r
  }
}
