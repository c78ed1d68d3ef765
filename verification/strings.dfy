/** The two `String` tests the contracts use for authorisation:
    `startsWith` and `endsWith`, both on raw characters. */
module Strings {

  /** `s.startsWith(prefix)` */
  predicate StartsWith(s: string, prefix: string) {
    |prefix| <= |s| && s[..|prefix|] == prefix
  }

  /** `s.endsWith(suffix)` */
  predicate EndsWith(s: string, suffix: string) {
    |suffix| <= |s| && s[|s| - |suffix|..] == suffix
  }

  /** `StartsWith` holds exactly when `s` is `prefix` followed by something. */
  lemma StartsWithIff(s: string, prefix: string)
    ensures StartsWith(s, prefix) <==> exists rest :: s == prefix + rest
  {
    if StartsWith(s, prefix) {
      assert s == prefix + s[|prefix|..];
    }
    if exists rest :: s == prefix + rest {
      var rest :| s == prefix + rest;
      assert s[..|prefix|] == prefix;
    }
  }

  /** `EndsWith` holds exactly when `s` is something followed by `suffix`. */
  lemma EndsWithIff(s: string, suffix: string)
    ensures EndsWith(s, suffix) <==> exists front :: s == front + suffix
  {
    if EndsWith(s, suffix) {
      assert s == s[..|s| - |suffix|] + suffix;
    }
    if exists front :: s == front + suffix {
      var front :| s == front + suffix;
      assert s[|s| - |suffix|..] == suffix;
    }
  }

  /** A concatenation starts with its left part and ends with its right part. */
  lemma ConcatStartsEnds(front: string, back: string)
    ensures StartsWith(front + back, front)
    ensures EndsWith(front + back, back)
  {
    assert (front + back)[..|front|] == front;
    assert (front + back)[|front|..] == back;
  }
}
