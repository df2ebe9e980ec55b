/** The address check both the create and the update handler of the users
    collection apply: the regular expression `^[^\s@]+@[^\s@]+\.[^\s@]+$`. */
module Email {
  import opened Text

  /** `[^\s@]`: a character any of the three parts of an address may hold. */
  predicate Plain(c: char)
  {
    c != '@' && !IsSpace(c)
  }

  predicate AllPlain(s: string)
  {
    forall i :: 0 <= i < |s| ==> Plain(s[i])
  }

  /** `s` is a local part, `@` at `at`, a host, `.` at `dot` and a last
      label, each part non-empty and plain. */
  ghost predicate SplitsAt(s: string, at: int, dot: int)
  {
    0 < at && at + 1 < dot && dot + 1 < |s| && s[at] == '@' && s[dot] == '.' &&
    AllPlain(s[..at]) && AllPlain(s[at + 1..dot]) && AllPlain(s[dot + 1..])
  }

  /** The language of the regular expression, read off its syntax: a
      non-empty local part, `@`, a non-empty host, `.`, a non-empty last
      label, where none of the three parts holds `@` or whitespace. The host
      and the last label may themselves hold dots. */
  ghost predicate MatchesPattern(s: string)
  {
    exists at, dot :: SplitsAt(s, at, dot)
  }

  /** The first position of `c` in `s`, or `|s|` when there is none. */
  function IndexOf(s: string, c: char): (k: nat)
    ensures k <= |s|
    ensures forall i :: 0 <= i < k ==> s[i] != c
    ensures k < |s| ==> s[k] == c
  {
    if s == [] || s[0] == c then 0 else 1 + IndexOf(s[1..], c)
  }

  /** Some `.` in `t` has a character on either side. */
  predicate HasInnerDot(t: string)
  {
    exists j :: 0 < j < |t| - 1 && t[j] == '.'
  }

  /** The check's conditions, with the dot found at `j` after the `@`, give a split. */
  lemma SplitOfCheck(s: string, at: int, j: int)
    requires 0 < at < |s| && s[at] == '@' && AllPlain(s[..at]) && AllPlain(s[at + 1..])
    requires 0 < j < |s| - at - 2 && s[at + 1 + j] == '.'
    ensures SplitsAt(s, at, at + 1 + j)
  {
    var t, dot := s[at + 1..], at + 1 + j;
    assert s[at + 1..dot] == t[..j];
    assert s[dot + 1..] == t[j + 1..];
  }

  /** A split puts the first `@` at `at` and satisfies the check's conditions. */
  lemma CheckOfSplit(s: string, at: int, dot: int)
    requires SplitsAt(s, at, dot)
    ensures IndexOf(s, '@') == at && AllPlain(s[at + 1..]) && HasInnerDot(s[at + 1..])
  {
    assert forall i :: 0 <= i < at ==> s[i] == s[..at][i];
    var t := s[at + 1..];
    forall i | 0 <= i < |t|
      ensures Plain(t[i])
    {
      if i < dot - at - 1 {
        assert t[i] == s[at + 1..dot][i];
      } else if i > dot - at - 1 {
        assert t[i] == s[dot + 1..][i - (dot - at)];
      }
    }
    assert t[dot - at - 1] == '.';
  }

  /** `emailRegex.test(s)`: split at the first `@`, then everything before it
      and everything after it must be plain, and the part after it must hold
      a dot that is neither its first nor its last character. */
  function IsEmail(s: string): (b: bool)
    ensures b <==> MatchesPattern(s)
  {
    var at := IndexOf(s, '@');
    var ok := 0 < at < |s| && AllPlain(s[..at]) && AllPlain(s[at + 1..]) && HasInnerDot(s[at + 1..]);
    assert ok ==> MatchesPattern(s) by {
      if ok {
        var j :| 0 < j < |s[at + 1..]| - 1 && s[at + 1..][j] == '.';
        SplitOfCheck(s, at, j);
      }
    }
    assert MatchesPattern(s) ==> ok by {
      if MatchesPattern(s) {
        var at', dot :| SplitsAt(s, at', dot);
        CheckOfSplit(s, at', dot);
      }
    }
    ok
  }

  /** `s[at]` is the one and only `@` of `s`. */
  ghost predicate SoleAt(s: string, at: int)
  {
    0 <= at < |s| && s[at] == '@' && forall i :: 0 <= i < |s| && i != at ==> s[i] != '@'
  }

  /** The same set of strings described by counting rather than by a
      pattern: no whitespace, exactly one `@` and it is not the first
      character, and after it a `.` with at least one character on each side. */
  ghost predicate SimpleAddress(s: string)
  {
    (forall i :: 0 <= i < |s| ==> !IsSpace(s[i])) &&
    exists at :: 0 < at && SoleAt(s, at) && exists dot :: at + 1 < dot < |s| - 1 && s[dot] == '.'
  }

  lemma EmailShape(s: string)
    ensures IsEmail(s) <==> SimpleAddress(s)
  {
    if IsEmail(s) {
      var at, dot :| SplitsAt(s, at, dot);
      forall i | 0 <= i < |s| && i != at
        ensures Plain(s[i])
      {
        if i < at {
          assert s[i] == s[..at][i];
        } else if i < dot {
          assert s[i] == s[at + 1..dot][i - at - 1];
        } else if i > dot {
          assert s[i] == s[dot + 1..][i - dot - 1];
        }
      }
      assert SoleAt(s, at);
    }
    if SimpleAddress(s) {
      var at :| 0 < at && SoleAt(s, at) && exists dot :: at + 1 < dot < |s| - 1 && s[dot] == '.';
      var dot :| at + 1 < dot < |s| - 1 && s[dot] == '.';
      assert AllPlain(s[..at]);
      assert AllPlain(s[at + 1..dot]);
      assert AllPlain(s[dot + 1..]);
      assert SplitsAt(s, at, dot);
    }
  }

  /** Lower-case ASCII letters are plain. */
  lemma LettersArePlain(s: string)
    requires forall i :: 0 <= i < |s| ==> 'a' <= s[i] <= 'z'
    ensures AllPlain(s)
  {
  }

  /** Joining three plain, non-empty parts with `@` and `.` gives an address. */
  lemma AddressFromParts(local: string, host: string, tld: string)
    requires local != [] && host != [] && tld != []
    requires AllPlain(local) && AllPlain(host) && AllPlain(tld)
    ensures MatchesPattern(local + "@" + host + "." + tld)
  {
    var s := local + "@" + host + "." + tld;
    var at, dot := |local|, |local| + 1 + |host|;
    assert s[at] == '@' && s[dot] == '.';
    assert s[..at] == local;
    assert s[at + 1..dot] == host;
    assert s[dot + 1..] == tld;
    assert SplitsAt(s, at, dot);
  }
}
