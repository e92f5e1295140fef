/**
 * The string operations `containerConfig` relies on: `strings.ToLower` (over
 * ASCII letters) and `strings.Join` with a one-character separator, together
 * with `Split`, the inverse of `Join` that a reader of the joined value uses.
 */
module Text {

  predicate IsUpper(c: char) {
    'A' <= c <= 'Z'
  }

  predicate IsLower(c: char) {
    'a' <= c <= 'z'
  }

  function LowerChar(c: char): (d: char)
    ensures IsUpper(c) ==> IsLower(d) && d as int - c as int == 'a' as int - 'A' as int
    ensures !IsUpper(c) ==> d == c
  {
    if IsUpper(c) then (c as int - 'A' as int + 'a' as int) as char else c
  }

  /** `strings.ToLower`, restricted to ASCII case mapping. */
  function ToLower(s: string): (r: string)
    ensures |r| == |s|
    ensures forall i :: 0 <= i < |s| ==> r[i] == LowerChar(s[i])
    ensures forall i :: 0 <= i < |r| ==> !IsUpper(r[i])
    decreases |s|
  {
    if s == [] then [] else [LowerChar(s[0])] + ToLower(s[1..])
  }

  /** `strings.Join(xs, [sep])`: the pieces in order, one separator between neighbours. */
  function Join(xs: seq<string>, sep: char): (r: string)
    ensures |xs| >= 1 ==> xs[0] <= r
    ensures |xs| >= 2 ==> |r| > |xs[0]| && r[|xs[0]|] == sep
    decreases |xs|
  {
    if |xs| == 0 then ""
    else if |xs| == 1 then xs[0]
    else xs[0] + [sep] + Join(xs[1..], sep)
  }

  /**
   * Reference inverse of `Join`: the pieces between separators, the empty
   * string giving one empty piece (as Go's `strings.Split` does for a
   * one-character separator).
   */
  function Split(s: string, sep: char): (r: seq<string>)
    ensures |r| >= 1
    ensures forall i :: 0 <= i < |r| ==> sep !in r[i]
    decreases |s|
  {
    if |s| == 0 then [""]
    else
      var rest := Split(s[1..], sep);
      if s[0] == sep then [""] + rest
      else [[s[0]] + rest[0]] + rest[1..]
  }

  function LowerAll(xs: seq<string>): seq<string> {
    seq(|xs|, i requires 0 <= i < |xs| => ToLower(xs[i]))
  }

  lemma ToLowerAppend(a: string, b: string)
    ensures ToLower(a + b) == ToLower(a) + ToLower(b)
  {
  }

  /** Lower-casing the joined string is joining the lower-cased pieces, for a separator that is not a letter. */
  lemma {:induction false} ToLowerJoin(xs: seq<string>, sep: char)
    requires !IsUpper(sep)
    ensures ToLower(Join(xs, sep)) == Join(LowerAll(xs), sep)
    decreases |xs|
  {
    if |xs| > 1 {
      calc {
        ToLower(Join(xs, sep));
        ToLower(xs[0] + [sep] + Join(xs[1..], sep));
        { ToLowerAppend(xs[0] + [sep], Join(xs[1..], sep)); ToLowerAppend(xs[0], [sep]); }
        ToLower(xs[0]) + [sep] + ToLower(Join(xs[1..], sep));
        { ToLowerJoin(xs[1..], sep); }
        ToLower(xs[0]) + [sep] + Join(LowerAll(xs[1..]), sep);
        { assert LowerAll(xs[1..]) == LowerAll(xs)[1..]; }
        Join(LowerAll(xs), sep);
      }
    }
  }

  /** Lower-casing does not introduce a separator that is not a letter. */
  lemma ToLowerKeepsSepOut(s: string, sep: char)
    requires !IsUpper(sep) && !IsLower(sep)
    requires sep !in s
    ensures sep !in ToLower(s)
  {
  }

  /** Splitting a separator-free prefix followed by `t` glues the prefix onto the first piece of `t`. */
  lemma {:induction false} SplitPrefix(a: string, t: string, sep: char)
    requires sep !in a
    ensures Split(a + t, sep) == [a + Split(t, sep)[0]] + Split(t, sep)[1..]
    decreases |a|
  {
    if a == [] {
      var parts := Split(t, sep);
      assert a + t == t && a + parts[0] == parts[0];
      assert [parts[0]] + parts[1..] == parts;
    } else {
      assert (a + t)[1..] == a[1..] + t;
      SplitPrefix(a[1..], t, sep);
      assert [a[0]] + (a[1..] + Split(t, sep)[0]) == a + Split(t, sep)[0];
    }
  }

  /** `Split` undoes `Join` when no piece contains the separator. */
  lemma {:induction false} SplitJoin(xs: seq<string>, sep: char)
    requires |xs| >= 1
    requires forall i :: 0 <= i < |xs| ==> sep !in xs[i]
    ensures Split(Join(xs, sep), sep) == xs
    decreases |xs|
  {
    if |xs| == 1 {
      SplitPrefix(xs[0], "", sep);
      assert xs[0] + "" == xs[0];
    } else {
      var u := Join(xs[1..], sep);
      assert Join(xs, sep) == xs[0] + ([sep] + u);
      SplitPrefix(xs[0], [sep] + u, sep);
      assert ([sep] + u)[1..] == u;
      SplitJoin(xs[1..], sep);
      assert xs[0] + "" == xs[0];
      assert xs == [xs[0]] + xs[1..];
    }
  }

}
