/**
 * Matching of one path component against a glob pattern whose only
 * wildcard is `*`, with the rule of `Dir[]` that a name starting with a
 * period is matched only by a pattern that starts with a literal period.
 */
module Glob {

  /** `*` matches any run of characters; every other character matches itself. */
  predicate WildMatch(pat: string, name: string)
    decreases |pat| + |name|
  {
    if pat == [] then name == []
    else if pat[0] == '*' then WildMatch(pat[1..], name) || (name != [] && WildMatch(pat, name[1..]))
    else name != [] && name[0] == pat[0] && WildMatch(pat[1..], name[1..])
  }

  predicate Hidden(name: string)
  {
    |name| > 0 && name[0] == '.'
  }

  /** Whether `Dir[dir/pat]` reports the entry `name` of `dir`. */
  predicate Match(pat: string, name: string)
  {
    (Hidden(name) ==> |pat| > 0 && pat[0] == '.') && WildMatch(pat, name)
  }

  predicate OccursAt(q: string, n: string, k: int)
  {
    0 <= k <= |n| - |q| && n[k..k + |q|] == q
  }

  ghost predicate IsSubstring(q: string, n: string)
  {
    exists k :: OccursAt(q, n, k)
  }

  /** The pattern `*` matches every name. */
  lemma {:induction false} StarMatchesAll(name: string)
    ensures WildMatch("*", name)
    decreases |name|
  {
    assert "*"[1..] == [];
    if name != [] {
      StarMatchesAll(name[1..]);
    }
  }

  /** A pattern without `*` matches exactly the name spelled like it. */
  lemma {:induction false} LiteralMatch(pat: string, name: string)
    requires '*' !in pat
    ensures WildMatch(pat, name) <==> pat == name
    decreases |pat|
  {
    if pat != [] && name != [] {
      assert '*' !in pat[1..];
      LiteralMatch(pat[1..], name[1..]);
      assert pat == [pat[0]] + pat[1..];
      assert name == [name[0]] + name[1..];
    }
  }

  /** `q*` with no other `*` matches exactly the names that start with `q`. */
  lemma {:induction false} PrefixMatch(q: string, n: string)
    requires '*' !in q
    ensures WildMatch(q + "*", n) <==> (|q| <= |n| && n[..|q|] == q)
    decreases |q|
  {
    if q == [] {
      assert q + "*" == "*";
      StarMatchesAll(n);
    } else {
      assert (q + "*")[0] == q[0] && (q + "*")[1..] == q[1..] + "*";
      assert '*' !in q[1..];
      if n != [] {
        PrefixMatch(q[1..], n[1..]);
        if |q| <= |n| {
          assert n[..|q|] == [n[0]] + n[1..][..|q| - 1];
          assert q == [q[0]] + q[1..];
        }
      }
    }
  }

  /** A leading `*` lets the rest of the pattern match any suffix of the name. */
  lemma {:induction false} StarThen(r: string, n: string)
    ensures WildMatch("*" + r, n) <==> exists k :: 0 <= k <= |n| && WildMatch(r, n[k..])
    decreases |n|
  {
    var p := "*" + r;
    assert p[0] == '*' && p[1..] == r;
    if n == [] {
      if WildMatch(r, n[0..]) {
        assert n[0..] == n;
      }
    } else {
      StarThen(r, n[1..]);
      if WildMatch(p, n) {
        if WildMatch(r, n) {
          assert n[0..] == n;
        } else {
          var k :| 0 <= k <= |n[1..]| && WildMatch(r, n[1..][k..]);
          assert n[1..][k..] == n[k + 1..];
        }
      } else {
        forall k | 0 <= k <= |n| ensures !WildMatch(r, n[k..]) {
          if k == 0 {
            assert n[0..] == n;
          } else {
            assert n[1..][k - 1..] == n[k..];
          }
        }
      }
    }
  }

  /** `*q*` with no other `*` matches exactly the names that contain `q`. */
  lemma SubstringMatch(q: string, n: string)
    requires '*' !in q
    ensures WildMatch("*" + q + "*", n) <==> IsSubstring(q, n)
  {
    assert "*" + q + "*" == "*" + (q + "*");
    StarThen(q + "*", n);
    if WildMatch("*" + q + "*", n) {
      var k :| 0 <= k <= |n| && WildMatch(q + "*", n[k..]);
      PrefixMatch(q, n[k..]);
      assert n[k..][..|q|] == n[k..k + |q|];
      assert OccursAt(q, n, k);
    }
    if IsSubstring(q, n) {
      var k :| OccursAt(q, n, k);
      PrefixMatch(q, n[k..]);
      assert n[k..][..|q|] == n[k..k + |q|];
    }
  }
}
