/**
  Ruby runtime notions the fun_ruby core relies on: optional values, raised
  errors, Symbol/String keys normalised with `to_s`, Ruby values with their
  truthiness, `Array#join` and literal `String#gsub`.
 */
module Ruby {

  datatype Option<T> = None | Some(value: T)

  /** The exception classes the core raises. `RuleFailure` stands for any
      exception a parameter rule of `Curried::Function` raises. */
  datatype Error = KeyError | TypeError | ArgumentError | LocalJumpError | NoMethodError | RuleFailure(param: string)

  datatype Result<T> = Ok(value: T) | Err(error: Error)

  /** Completion of a call whose return value is not used. */
  datatype Status = Success | Failure(error: Error)

  /** A key as callers pass it: a Symbol or a String. */
  datatype Key = Sym(name: string) | Str(text: string) {
    /** `to_s`: `:sum` and `"sum"` give the same string. */
    function ToS(): string {
      match this
      case Sym(n) => n
      case Str(t) => t
    }
  }

  /** Ruby values stored in a container; `Proc(id)` is a callable object. */
  datatype Value = Nil | Bool(b: bool) | Int(i: int) | Text(s: string) | Proc(id: nat)

  /** Ruby truthiness: only `nil` and `false` are falsy. */
  predicate Truthy(v: Value) {
    !(v.Nil? || v == Bool(false))
  }

  /** `Array#join(sep)` on strings. */
  function Join(parts: seq<string>, sep: string): string
    decreases |parts|
  {
    if |parts| == 0 then ""
    else if |parts| == 1 then parts[0]
    else parts[0] + sep + Join(parts[1..], sep)
  }

  /** Joining one more part appends the separator and that part. */
  lemma {:induction false} JoinSnoc(parts: seq<string>, sep: string, last: string)
    requires |parts| >= 1
    ensures Join(parts + [last], sep) == Join(parts, sep) + sep + last
    decreases |parts|
  {
    if |parts| == 1 {
      assert (parts + [last])[1..] == [last];
    } else {
      assert (parts + [last])[1..] == parts[1..] + [last];
      JoinSnoc(parts[1..], sep, last);
    }
  }

  /** `Array#reverse`. */
  function Reversed<T>(s: seq<T>): (r: seq<T>)
    ensures |r| == |s|
    ensures forall i :: 0 <= i < |s| ==> r[i] == s[|s| - 1 - i]
    decreases |s|
  {
    if s == [] then [] else Reversed(s[1..]) + [s[0]]
  }

  /** True when `pat` occurs in `s` starting at position `i`. */
  predicate OccursAt(s: string, pat: string, i: nat) {
    i + |pat| <= |s| && s[i..i + |pat|] == pat
  }

  /** True when `pat` occurs anywhere in `s`. */
  predicate Contains(s: string, pat: string) {
    exists i: nat | i <= |s| :: OccursAt(s, pat, i)
  }

  /** `s.gsub(pat, rep)` for a String pattern: every occurrence of `pat`,
      scanning left to right without overlaps, is replaced by `rep`. An empty
      pattern matches before every character and at the end. */
  function ReplaceAll(s: string, pat: string, rep: string): (r: string)
    ensures |pat| > 0 && rep == pat ==> r == s
    decreases |s|
  {
    if |pat| == 0 then
      if |s| == 0 then rep else rep + [s[0]] + ReplaceAll(s[1..], pat, rep)
    else if |s| < |pat| then s
    else if s[..|pat|] == pat then rep + ReplaceAll(s[|pat|..], pat, rep)
    else [s[0]] + ReplaceAll(s[1..], pat, rep)
  }

  /** A string without the pattern is left as it is. */
  lemma {:induction false} ReplaceAllAbsent(s: string, pat: string, rep: string)
    requires |pat| > 0 && !Contains(s, pat)
    ensures ReplaceAll(s, pat, rep) == s
    decreases |s|
  {
    if |s| >= |pat| {
      assert !OccursAt(s, pat, 0);
      assert s[..|pat|] != pat;
      forall i: nat | i <= |s[1..]| ensures !OccursAt(s[1..], pat, i) {
        assert !OccursAt(s, pat, i + 1);
        if i + |pat| <= |s| - 1 {
          assert s[1..][i..i + |pat|] == s[i + 1..i + 1 + |pat|];
        }
      }
      ReplaceAllAbsent(s[1..], pat, rep);
    }
  }

  /** The whole pattern is replaced by the replacement. */
  lemma ReplaceAllWhole(pat: string, rep: string)
    requires |pat| > 0
    ensures ReplaceAll(pat, pat, rep) == rep
  {
    assert pat[..|pat|] == pat;
    assert pat[|pat|..] == [];
  }

  /** Where no match starts at the front, the first character is kept. */
  lemma ReplaceAllKeepsFirst(s: string, pat: string, rep: string)
    requires |pat| > 0 && |s| > 0 && !OccursAt(s, pat, 0)
    ensures ReplaceAll(s, pat, rep) == [s[0]] + ReplaceAll(s[1..], pat, rep)
  {
    if |s| < |pat| {
      assert ReplaceAll(s[1..], pat, rep) == s[1..];
    } else {
      assert s[0..|pat|] == s[..|pat|];
    }
  }

  /** A match at the front is replaced and scanning resumes after it. */
  lemma ReplaceAllMatchesFirst(s: string, pat: string, rep: string)
    requires |pat| > 0 && OccursAt(s, pat, 0)
    ensures ReplaceAll(s, pat, rep) == rep + ReplaceAll(s[|pat|..], pat, rep)
  {
    assert s[0..|pat|] == s[..|pat|];
  }

  /** When the pattern holds no `sep` character, no match can straddle a
      separator, so replacing around a separator works part by part. */
  lemma {:induction false} ReplaceAllAroundSeparator(a: string, sep: char, b: string, pat: string, rep: string)
    requires |pat| > 0 && sep !in pat
    ensures ReplaceAll(a + [sep] + b, pat, rep) == ReplaceAll(a, pat, rep) + [sep] + ReplaceAll(b, pat, rep)
    decreases |a|, 1
  {
    var s := a + [sep] + b;
    if OccursAt(s, pat, 0) {
      SeparatorMatchAtFront(a, sep, b, pat, rep);
    } else if |a| == 0 {
      ReplaceAllKeepsFirst(s, pat, rep);
      assert s[1..] == b;
    } else {
      SeparatorCharAtFront(a, sep, b, pat, rep);
    }
  }

  lemma {:induction false} SeparatorMatchAtFront(a: string, sep: char, b: string, pat: string, rep: string)
    requires |pat| > 0 && sep !in pat && OccursAt(a + [sep] + b, pat, 0)
    ensures ReplaceAll(a + [sep] + b, pat, rep) == ReplaceAll(a, pat, rep) + [sep] + ReplaceAll(b, pat, rep)
    decreases |a|, 0
  {
    var s := a + [sep] + b;
    MatchBeforeSeparator(a, sep, b, pat);
    assert ReplaceAll(s, pat, rep) == rep + ReplaceAll(s[|pat|..], pat, rep) by {
      ReplaceAllMatchesFirst(s, pat, rep);
    }
    assert ReplaceAll(a, pat, rep) == rep + ReplaceAll(a[|pat|..], pat, rep) by {
      ReplaceAllMatchesFirst(a, pat, rep);
    }
    assert s[|pat|..] == a[|pat|..] + [sep] + b;
    ReplaceAllAroundSeparator(a[|pat|..], sep, b, pat, rep);
  }

  /** A match at the front that holds no `sep` ends before the first `sep`. */
  lemma MatchBeforeSeparator(a: string, sep: char, b: string, pat: string)
    requires sep !in pat && OccursAt(a + [sep] + b, pat, 0)
    ensures |pat| <= |a| && OccursAt(a, pat, 0)
  {
    var s := a + [sep] + b;
    assert s[|a|] == sep;
    assert forall i :: 0 <= i < |pat| ==> s[i] == pat[i] && pat[i] != sep;
    assert a[0..|pat|] == s[0..|pat|];
  }

  lemma {:induction false} SeparatorCharAtFront(a: string, sep: char, b: string, pat: string, rep: string)
    requires |pat| > 0 && sep !in pat && |a| > 0 && !OccursAt(a + [sep] + b, pat, 0)
    ensures ReplaceAll(a + [sep] + b, pat, rep) == ReplaceAll(a, pat, rep) + [sep] + ReplaceAll(b, pat, rep)
    decreases |a|, 0
  {
    var s := a + [sep] + b;
    var tail := a[1..] + [sep] + b;
    assert s == a + ([sep] + b);
    assert s[0] == a[0] && s[1..] == tail;
    var x, y, z := ReplaceAll(a[1..], pat, rep), ReplaceAll(b, pat, rep), ReplaceAll(tail, pat, rep);
    assert ReplaceAll(s, pat, rep) == [a[0]] + z by {
      ReplaceAllKeepsFirst(s, pat, rep);
    }
    assert ReplaceAll(a, pat, rep) == [a[0]] + x by {
      PrefixHasNoMatch(a, [sep] + b, pat);
      ReplaceAllKeepsFirst(a, pat, rep);
    }
    assert z == x + [sep] + y by {
      ReplaceAllAroundSeparator(a[1..], sep, b, pat, rep);
    }
  }

  /** A prefix of a string without a match at the front has none there
      either. */
  lemma PrefixHasNoMatch(a: string, rest: string, pat: string)
    requires !OccursAt(a + rest, pat, 0)
    ensures !OccursAt(a, pat, 0)
  {
    if |pat| <= |a| {
      assert a[0..|pat|] == (a + rest)[0..|pat|];
    }
  }
}
