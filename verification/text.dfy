/** Byte and string primitives the lock-file engine relies on: prefix tests,
    Rust's left-to-right `str::replace`, and the way `Path::join` splits a
    relative path string into components. */
module Text {

  newtype byte = b: int | 0 <= b < 256

  type Bytes = seq<byte>

  predicate StartsWith(s: string, prefix: string) {
    |prefix| <= |s| && s[..|prefix|] == prefix
  }

  /** `pat` occurs in `s` starting at index `i`. */
  predicate OccursAt(s: string, pat: string, i: int) {
    0 <= i && i + |pat| <= |s| && s[i..i + |pat|] == pat
  }

  /** Rust's `str::replace` for a non-empty pattern: every non-overlapping
      occurrence, scanning left to right, is replaced. */
  function Replace(s: string, from: string, to: string): string
    requires |from| > 0
    decreases |s|
  {
    if |s| < |from| then s
    else if s[..|from|] == from then to + Replace(s[|from|..], from, to)
    else [s[0]] + Replace(s[1..], from, to)
  }

  /** A string without any occurrence of the pattern is left alone. */
  lemma {:induction false} ReplaceAbsent(s: string, from: string, to: string)
    requires |from| > 0
    requires forall i :: !OccursAt(s, from, i)
    ensures Replace(s, from, to) == s
    decreases |s|
  {
    if |s| < |from| {
    } else {
      assert !OccursAt(s, from, 0);
      forall i ensures !OccursAt(s[1..], from, i) {
        if OccursAt(s[1..], from, i) {
          assert s[1..][i..i + |from|] == s[i + 1..i + 1 + |from|];
          assert OccursAt(s, from, i + 1);
        }
      }
      ReplaceAbsent(s[1..], from, to);
      assert [s[0]] + s[1..] == s;
    }
  }

  /** When the pattern occurs in `p + from` only at its very end, exactly that
      occurrence is rewritten. */
  lemma {:induction false} ReplaceOnlyAtEnd(p: string, from: string, to: string)
    requires |from| > 0
    requires forall i :: 0 <= i < |p| ==> !OccursAt(p + from, from, i)
    ensures Replace(p + from, from, to) == p + to
    decreases |p|
  {
    var s := p + from;
    if |p| == 0 {
      assert s == from;
      assert s[|from|..] == [];
      assert Replace([], from, to) == [];
      assert to + [] == to;
    } else {
      assert !OccursAt(s, from, 0);
      assert s[1..] == p[1..] + from;
      forall i | 0 <= i < |p[1..]| ensures !OccursAt(p[1..] + from, from, i) {
        if OccursAt(p[1..] + from, from, i) {
          assert s[1..][i..i + |from|] == s[i + 1..i + 1 + |from|];
          assert OccursAt(s, from, i + 1);
        }
      }
      ReplaceOnlyAtEnd(p[1..], from, to);
      assert [p[0]] + (p[1..] + to) == p + to;
    }
  }

  /** Replacing a single character `c` by text that does not contain `c`
      leaves no `c` behind. */
  lemma {:induction false} ReplaceCharRemoves(s: string, c: char, to: string)
    requires c !in to
    ensures c !in Replace(s, [c], to)
    decreases |s|
  {
    if |s| < 1 {
    } else if s[..1] == [c] {
      ReplaceCharRemoves(s[1..], c, to);
    } else {
      assert s[0] != c by { assert s[..1] == [s[0]]; }
      ReplaceCharRemoves(s[1..], c, to);
    }
  }

  /** Replacing a character that does not occur changes nothing. */
  lemma {:induction false} ReplaceCharAbsent(s: string, c: char, to: string)
    requires c !in s
    ensures Replace(s, [c], to) == s
    decreases |s|
  {
    if |s| > 0 {
      assert s[..1] == [s[0]];
      assert s[0] in s;
      assert forall k :: 0 <= k < |s[1..]| ==> s[1..][k] == s[k + 1];
      ReplaceCharAbsent(s[1..], c, to);
      assert [s[0]] + s[1..] == s;
    }
  }

  /** In `a c b` where only the middle character is `c`, exactly that
      character is replaced. */
  lemma ReplaceSeparator(a: string, b: string, c: char, to: string)
    requires c !in a && c !in b
    ensures Replace(a + [c] + b, [c], to) == a + to + b
  {
    ReplaceCharConcat(a + [c], b, c, to);
    ReplaceCharConcat(a, [c], c, to);
    ReplaceCharAbsent(a, c, to);
    ReplaceCharAbsent(b, c, to);
    assert [c][..1] == [c];
    assert [c][1..] == [];
    assert Replace([c], [c], to) == to + Replace([], [c], to);
  }

  /** Single-character replacement distributes over concatenation. */
  lemma {:induction false} ReplaceCharConcat(a: string, b: string, c: char, to: string)
    ensures Replace(a + b, [c], to) == Replace(a, [c], to) + Replace(b, [c], to)
    decreases |a|
  {
    if |a| == 0 {
      assert a + b == b;
    } else {
      assert (a + b)[..1] == a[..1];
      assert (a + b)[1..] == a[1..] + b;
      assert (a + b)[0] == a[0];
      ReplaceCharConcat(a[1..], b, c, to);
    }
  }

  /** `Replace` introduces no character that is in neither the input nor the
      replacement. */
  lemma {:induction false} ReplaceChars(s: string, from: string, to: string, ch: char)
    requires |from| > 0
    requires ch !in s && ch !in to
    ensures ch !in Replace(s, from, to)
    decreases |s|
  {
    if |s| < |from| {
    } else if s[..|from|] == from {
      assert forall k :: 0 <= k < |s[|from|..]| ==> s[|from|..][k] == s[k + |from|];
      ReplaceChars(s[|from|..], from, to, ch);
    } else {
      assert forall k :: 0 <= k < |s[1..]| ==> s[1..][k] == s[k + 1];
      ReplaceChars(s[1..], from, to, ch);
    }
  }

  /** The components `Path::join` adds for a relative path string: the pieces
      between `/` separators, empty pieces dropped. */
  function Components(s: string): (r: seq<string>)
    ensures forall i :: 0 <= i < |r| ==> |r[i]| > 0 && '/' !in r[i]
  {
    SplitFrom(s, "")
  }

  /** `cur` is the component read so far (it holds no `/`). */
  function SplitFrom(s: string, cur: string): (r: seq<string>)
    requires '/' !in cur
    ensures forall i :: 0 <= i < |r| ==> |r[i]| > 0 && '/' !in r[i]
    decreases |s|
  {
    if |s| == 0 then (if cur == "" then [] else [cur])
    else if s[0] == '/' then (if cur == "" then [] else [cur]) + SplitFrom(s[1..], "")
    else SplitFrom(s[1..], cur + [s[0]])
  }

  /** A split introduces no character that is in neither the input nor the
      current component. */
  lemma {:induction false} SplitFromChars(s: string, cur: string, ch: char)
    requires '/' !in cur
    requires ch !in s && ch !in cur
    ensures forall i :: 0 <= i < |SplitFrom(s, cur)| ==> ch !in SplitFrom(s, cur)[i]
    decreases |s|
  {
    if |s| == 0 {
    } else {
      assert forall k :: 0 <= k < |s[1..]| ==> s[1..][k] == s[k + 1];
      if s[0] == '/' {
        SplitFromChars(s[1..], "", ch);
      } else {
        SplitFromChars(s[1..], cur + [s[0]], ch);
      }
    }
  }

  /** A slash-free run is gathered into the current component. */
  lemma {:induction false} SplitFromPlain(a: string, rest: string, cur: string)
    requires '/' !in cur && '/' !in a
    ensures SplitFrom(a + rest, cur) == SplitFrom(rest, cur + a)
    decreases |a|
  {
    if |a| == 0 {
      assert a + rest == rest;
      assert cur + a == cur;
    } else {
      assert (a + rest)[0] == a[0];
      assert (a + rest)[1..] == a[1..] + rest;
      assert a[0] in a;
      SplitFromPlain(a[1..], rest, cur + [a[0]]);
      assert cur + [a[0]] + a[1..] == cur + a;
    }
  }

  /** A non-empty slash-free string is exactly one component. */
  lemma ComponentsOfPlain(a: string)
    requires |a| > 0 && '/' !in a
    ensures Components(a) == [a]
  {
    SplitFromPlain(a, "", "");
    assert a + "" == a;
    assert "" + a == a;
  }

  /** `a/b` with non-empty slash-free `a` splits into `a` followed by the
      components of `b`. */
  lemma ComponentsOfJoin(a: string, b: string)
    requires |a| > 0 && '/' !in a
    ensures Components(a + "/" + b) == [a] + Components(b)
  {
    SplitFromPlain(a, "/" + b, "");
    assert a + "/" + b == a + ("/" + b);
    assert "" + a == a;
    assert ("/" + b)[0] == '/';
    assert ("/" + b)[1..] == b;
  }

  /** Decimal rendering of a natural number. */
  function NatToString(n: nat): (r: string)
    ensures |r| > 0
    ensures forall i :: 0 <= i < |r| ==> '0' <= r[i] <= '9'
  {
    var digit := ['0' + (n % 10) as char];
    if n < 10 then digit else NatToString(n / 10) + digit
  }
}
