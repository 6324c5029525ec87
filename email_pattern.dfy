/** The e-mail pattern `^[^\s@]+@[^\s@]+\.[^\s@]+$` that both the contact
    endpoint and the contact form test a submitted address against.

    `Matches` reads the pattern as it is written: three non-empty runs of
    characters that are neither whitespace nor `@`, joined by one `@` and one
    `.`. `IsValidEmail` is the same test stated on indices: no whitespace,
    exactly one `@`, something before it, and a `.` in the part after it with
    at least one character on either side. `MatchesIffValid` proves the two
    agree on every string. */
module EmailPattern {

  /** The characters JavaScript's `\s` class matches: the WhiteSpace and
      LineTerminator code points of ECMAScript. */
  predicate IsWhitespace(c: char) {
    || c == '\t' || c == '\n' || c == '\U{000B}' || c == '\U{000C}' || c == '\r'
    || c == ' ' || c == '\U{00A0}' || c == '\U{1680}'
    || ('\U{2000}' <= c <= '\U{200A}')
    || c == '\U{2028}' || c == '\U{2029}' || c == '\U{202F}' || c == '\U{205F}'
    || c == '\U{3000}' || c == '\U{FEFF}'
  }

  /** The character class `[^\s@]`. */
  predicate PlainChar(c: char) {
    c != '@' && !IsWhitespace(c)
  }

  /** The repetition `[^\s@]+`. */
  predicate PlainRun(s: string) {
    |s| > 0 && forall k :: 0 <= k < |s| ==> PlainChar(s[k])
  }

  /** The pattern as written: `local` `@` `host` `.` `tld`, each part a plain run. */
  ghost predicate Matches(s: string) {
    exists local: string, host: string, tld: string
      {:trigger local + "@" + host + "." + tld} ::
      s == local + "@" + host + "." + tld && PlainRun(local) && PlainRun(host) && PlainRun(tld)
  }

  predicate NoWhitespace(s: string) {
    forall k :: 0 <= k < |s| ==> !IsWhitespace(s[k])
  }

  /** The domain after the `@` has a `.` with text on both sides of it. */
  predicate HasInnerDot(domain: string) {
    exists d :: 1 <= d <= |domain| - 2 && domain[d] == '.'
  }

  /** `s[i]` is the one and only `@` in `s`. */
  predicate SoleAt(s: string, i: int) {
    0 <= i < |s| && s[i] == '@' && forall k :: 0 <= k < |s| && s[k] == '@' ==> k == i
  }

  /** The test `emailRegex.test(email)`, stated on indices. */
  predicate IsValidEmail(s: string) {
    && NoWhitespace(s)
    && exists i :: 0 < i < |s| && SoleAt(s, i) && HasInnerDot(s[i + 1..])
  }

  /** Cutting `s` around an `@` at `i` and a `.` at `j` gives back `s`. */
  lemma Split(s: string, i: int, j: int)
    requires 0 <= i < j < |s| && s[i] == '@' && s[j] == '.'
    ensures s == s[..i] + "@" + s[i + 1..j] + "." + s[j + 1..]
  {
  }

  lemma MatchesImpliesValid(s: string)
    requires Matches(s)
    ensures IsValidEmail(s)
  {
    var local: string, host: string, tld: string :|
      s == local + "@" + host + "." + tld && PlainRun(local) && PlainRun(host) && PlainRun(tld);
    var i := |local|;
    var j := |local| + 1 + |host|;
    forall k | 0 <= k < |s| ensures !IsWhitespace(s[k]) && (k == i || s[k] != '@') {
      if k < i {
        assert s[k] == local[k];
      } else if i < k < j {
        assert s[k] == host[k - i - 1];
      } else if j < k {
        assert s[k] == tld[k - j - 1];
      }
    }
    assert SoleAt(s, i);
    var domain := s[i + 1..];
    assert domain == host + "." + tld;
    assert domain[|host|] == '.';
    assert HasInnerDot(domain);
  }

  lemma ValidImpliesMatches(s: string)
    requires IsValidEmail(s)
    ensures Matches(s)
  {
    var i :| 0 < i < |s| && SoleAt(s, i) && HasInnerDot(s[i + 1..]);
    var d :| 1 <= d <= |s[i + 1..]| - 2 && s[i + 1..][d] == '.';
    var j := i + 1 + d;
    var local, host, tld := s[..i], s[i + 1..j], s[j + 1..];
    assert PlainRun(local) by {
      forall k | 0 <= k < |local| ensures PlainChar(local[k]) { assert local[k] == s[k]; }
    }
    assert PlainRun(host) by {
      forall k | 0 <= k < |host| ensures PlainChar(host[k]) { assert host[k] == s[i + 1 + k]; }
    }
    assert PlainRun(tld) by {
      forall k | 0 <= k < |tld| ensures PlainChar(tld[k]) { assert tld[k] == s[j + 1 + k]; }
    }
    Split(s, i, j);
  }

  /** The pattern as written and its index form accept exactly the same strings. */
  lemma MatchesIffValid(s: string)
    ensures Matches(s) <==> IsValidEmail(s)
  {
    if Matches(s) {
      MatchesImpliesValid(s);
    }
    if IsValidEmail(s) {
      ValidImpliesMatches(s);
    }
  }

  /** Addresses the pattern accepts, one of them with a doubled dot. */
  lemma AcceptedSamples()
    ensures IsValidEmail("bob@example.com")
    ensures IsValidEmail("a@b..c")
  {
    assert SoleAt("bob@example.com", 3) && "bob@example.com"[4..][7] == '.';
    assert SoleAt("a@b..c", 1) && "a@b..c"[2..][1] == '.';
  }

  /** Addresses the pattern rejects: no dot after the `@`, a dot right after
      it, a trailing dot, a second `@`, and a space. */
  lemma RejectedSamples()
    ensures !IsValidEmail("bob@example")
    ensures !IsValidEmail("a@.c")
    ensures !IsValidEmail("a@b.")
    ensures !IsValidEmail("a@@b.c")
    ensures !IsValidEmail("a b@c.d")
  {
    assert "bob@example"[3] == '@' && "bob@example"[4..] == "example";
    assert "a@.c"[1] == '@' && "a@.c"[2..] == ".c";
    assert "a@b."[1] == '@' && "a@b."[2..] == "b.";
    assert "a@@b.c"[1] == '@' && "a@@b.c"[2] == '@';
    assert IsWhitespace("a b@c.d"[1]);
  }
}
