/**
 The e-mail format check of the feedback form (`valid_email`, main.py:97-99).

 The source decides membership with one anchored regular expression,
 `^[a-zA-Z0-9._%+-]+@[a-zA-Z0-9.-]+\.[a-zA-Z]{2,}$`, run with `re.match`.
 This module gives two readings of it:
 - `PatternAccepts`, the declarative one: the text splits as
   local "@" domain "." tld with each part drawn from its character
   class, where, as in Python, `$` may also match just before a single
   final line feed;
 - `ValidEmail`, the executable one: cut at the first `@`, then at the
   last `.` after it, and check the three pieces.
 `ValidEmail`'s contract is that the two agree on every string.
 */
module EmailValidation {
  import opened Chars
  import opened Options

  /** `[a-zA-Z0-9._%+-]`, the class of the part before the `@`. */
  predicate IsLocalChar(c: char)
  {
    IsLetter(c) || IsDigit(c) || c == '.' || c == '_' || c == '%' || c == '+' || c == '-'
  }

  /** `[a-zA-Z0-9.-]`, the class of the domain before its final dot. */
  predicate IsDomainChar(c: char)
  {
    IsLetter(c) || IsDigit(c) || c == '.' || c == '-'
  }

  predicate AllLocal(s: string) { forall i | 0 <= i < |s| :: IsLocalChar(s[i]) }

  predicate AllDomain(s: string) { forall i | 0 <= i < |s| :: IsDomainChar(s[i]) }

  predicate AllLetters(s: string) { forall i | 0 <= i < |s| :: IsLetter(s[i]) }

  /** `t` is local "@" domain "." tld with `local` matching `[...]+`,
      `domain` matching `[a-zA-Z0-9.-]+` and `tld` matching `[a-zA-Z]{2,}`. */
  ghost predicate IsSplit(t: string, local: string, domain: string, tld: string)
  {
    && t == local + "@" + domain + "." + tld
    && |local| >= 1 && AllLocal(local)
    && |domain| >= 1 && AllDomain(domain)
    && |tld| >= 2 && AllLetters(tld)
  }

  /** The pattern matches the whole of `t`. */
  ghost predicate MatchesWhole(t: string)
  {
    exists local, domain, tld :: IsSplit(t, local, domain, tld)
  }

  /** What `re.match` with the anchored pattern accepts: Python's `$`
      matches at the end of the string and also just before a line feed
      that ends it. */
  ghost function PatternAccepts(s: string): (b: bool)
    ensures b ==> 6 <= |s| && IsLocalChar(s[0]) && '@' in s
  {
    WholeMatchShape(s);
    if |s| > 0 && s[|s| - 1] == '\n' then
      WholeMatchShape(s[..|s| - 1]);
      assert |s| > 1 ==> s[0] == s[..|s| - 1][0];
      MatchesWhole(s) || MatchesWhole(s[..|s| - 1])
    else
      MatchesWhole(s)
  }

  /** A full match has at least six characters, starts with a character of
      the local part and contains an `@`. */
  lemma WholeMatchShape(t: string)
    ensures MatchesWhole(t) ==> 6 <= |t| && IsLocalChar(t[0]) && '@' in t
  {
    if MatchesWhole(t) {
      var local, domain, tld :| IsSplit(t, local, domain, tld);
      assert t[0] == local[0];
      assert t[|local|] == '@';
    }
  }

  /** `s` without one final line feed, if it has one. */
  function Body(s: string): (t: string)
    ensures |t| <= |s| && t == s[..|t|]
    ensures |s| - |t| <= 1
    ensures |t| < |s| <==> |s| > 0 && s[|s| - 1] == '\n'
    ensures s == t || s == t + "\n"
  {
    if |s| > 0 && s[|s| - 1] == '\n' then
      assert s == s[..|s| - 1] + "\n";
      s[..|s| - 1]
    else s
  }

  /** Position of the first occurrence of `c` in `s`. */
  function FirstIndex(s: string, c: char): (r: Option<nat>)
    ensures r.None? <==> c !in s
    ensures r.Some? ==> r.value < |s| && s[r.value] == c && c !in s[..r.value]
  {
    if s == [] then None
    else if s[0] == c then Some(0)
    else match FirstIndex(s[1..], c)
      case None => None
      case Some(i) =>
        assert s[1..][..i] == s[1..i + 1];
        Some(i + 1)
  }

  /** Position of the last occurrence of `c` in `s`. */
  function LastIndex(s: string, c: char): (r: Option<nat>)
    ensures r.None? <==> c !in s
    ensures r.Some? ==> r.value < |s| && s[r.value] == c && c !in s[r.value + 1..]
  {
    if s == [] then None
    else if s[|s| - 1] == c then Some(|s| - 1)
    else
      var init := s[..|s| - 1];
      match LastIndex(init, c)
      case None =>
        assert s == init + [s[|s| - 1]];
        None
      case Some(i) =>
        assert s[i + 1..] == init[i + 1..] + [s[|s| - 1]];
        Some(i)
  }

  /** Cuts `t` at its first `@` and then at the last `.` after that. */
  function Decompose(t: string): (r: Option<(string, string, string)>)
    ensures r.Some? ==> t == r.value.0 + "@" + r.value.1 + "." + r.value.2
    ensures r.Some? ==> '@' !in r.value.0 && '.' !in r.value.2
    ensures r.None? <==> FirstIndex(t, '@').None? || '.' !in t[FirstIndex(t, '@').value + 1..]
  {
    match FirstIndex(t, '@')
    case None => None
    case Some(a) =>
      var rest := t[a + 1..];
      match LastIndex(rest, '.')
      case None => None
      case Some(d) =>
        Reassemble(t, a, d);
        Some((t[..a], rest[..d], rest[d + 1..]))
  }

  lemma Reassemble(t: string, a: nat, d: nat)
    requires a < |t| && t[a] == '@'
    requires d < |t| - a - 1 && t[a + 1..][d] == '.'
    ensures t == t[..a] + "@" + t[a + 1..][..d] + "." + t[a + 1..][d + 1..]
  {
    var rest := t[a + 1..];
    assert rest == rest[..d] + "." + rest[d + 1..];
    assert t == t[..a] + "@" + rest;
  }

  /** `valid_email`: truthy iff `re.match` finds the pattern. */
  function ValidEmail(s: string): (r: bool)
    ensures r <==> PatternAccepts(s)
  {
    var d := Decompose(Body(s));
    DecomposeDecides(Body(s));
    BodyDecides(s);
    d.Some? && PartsOk(d.value)
  }

  /** The three pieces each match their part of the pattern. */
  predicate PartsOk(parts: (string, string, string))
  {
    var (local, domain, tld) := parts;
    |local| >= 1 && AllLocal(local) && |domain| >= 1 && AllDomain(domain) && |tld| >= 2 && AllLetters(tld)
  }

  /** The pattern matches `t` exactly when the pieces `Decompose` cuts do. */
  lemma DecomposeDecides(t: string)
    ensures MatchesWhole(t) <==> Decompose(t).Some? && PartsOk(Decompose(t).value)
  {
    var r := Decompose(t);
    if r.Some? && PartsOk(r.value) {
      assert IsSplit(t, r.value.0, r.value.1, r.value.2);
    }
    if MatchesWhole(t) {
      var local, domain, tld :| IsSplit(t, local, domain, tld);
      DecomposeFindsSplit(t, local, domain, tld);
    }
  }

  /** Any split the pattern admits is the one `Decompose` finds, because
      the local part holds no `@` and the tld holds no `.`. */
  lemma DecomposeFindsSplit(t: string, local: string, domain: string, tld: string)
    requires IsSplit(t, local, domain, tld)
    ensures Decompose(t) == Some((local, domain, tld))
  {
    var a := |local|;
    var rest := domain + "." + tld;
    assert t == local + ("@" + rest);
    assert t[a] == '@' && t[..a] == local && t[a + 1..] == rest;
    assert '@' !in local by {
      forall i | 0 <= i < |local| ensures local[i] != '@' {
        assert IsLocalChar(local[i]);
      }
    }
    FirstIndexUnique(t, '@', a);
    var d := |domain|;
    assert rest[d] == '.' && rest[..d] == domain && rest[d + 1..] == tld;
    assert '.' !in tld by {
      forall i | 0 <= i < |tld| ensures tld[i] != '.' {
        assert IsLetter(tld[i]);
      }
    }
    LastIndexUnique(rest, '.', d);
    DecomposeAt(t, a, d);
  }

  lemma DecomposeAt(t: string, a: nat, d: nat)
    requires FirstIndex(t, '@') == Some(a)
    requires LastIndex(t[a + 1..], '.') == Some(d)
    ensures Decompose(t) == Some((t[..a], t[a + 1..][..d], t[a + 1..][d + 1..]))
  {
  }

  lemma {:induction false} FirstIndexUnique(s: string, c: char, k: nat)
    requires k < |s| && s[k] == c && c !in s[..k]
    ensures FirstIndex(s, c) == Some(k)
  {
    if k > 0 {
      assert s[0] == s[..k][0];
      assert s[1..][..k - 1] == s[1..k];
      FirstIndexUnique(s[1..], c, k - 1);
    }
  }

  lemma {:induction false} LastIndexUnique(s: string, c: char, k: nat)
    requires k < |s| && s[k] == c && c !in s[k + 1..]
    ensures LastIndex(s, c) == Some(k)
  {
    if k < |s| - 1 {
      var init := s[..|s| - 1];
      assert s[|s| - 1] == s[k + 1..][|s| - k - 2];
      assert init[k + 1..] == s[k + 1..|s| - 1];
      LastIndexUnique(init, c, k);
    }
  }

  /** A string ending in a line feed never matches whole (the tld ends
      in a letter), so only its body can. */
  lemma BodyDecides(s: string)
    ensures PatternAccepts(s) <==> MatchesWhole(Body(s))
  {
    if MatchesWhole(s) {
      WholeMatchEndsInLetter(s);
    }
  }

  /** Number of occurrences of `c` in `s`. */
  function CountChar(s: string, c: char): nat
  {
    if s == [] then 0 else (if s[0] == c then 1 else 0) + CountChar(s[1..], c)
  }

  lemma {:induction false} CountCharAppend(a: string, b: string, c: char)
    ensures CountChar(a + b, c) == CountChar(a, c) + CountChar(b, c)
  {
    if a == [] {
      assert a + b == b;
    } else {
      assert (a + b)[1..] == a[1..] + b;
      CountCharAppend(a[1..], b, c);
    }
  }

  /** Only the single separator between the pieces is an `@`. */
  lemma {:induction false} PartsHaveOneAt(t: string)
    requires Decompose(t).Some? && PartsOk(Decompose(t).value)
    ensures CountChar(t, '@') == 1
  {
    var (local, domain, tld) := Decompose(t).value;
    NoneOf(local, '@');
    NoneOf(domain, '@');
    NoneOf(tld, '@');
    CountCharAppend(local, "@", '@');
    CountCharAppend(local + "@", domain, '@');
    CountCharAppend(local + "@" + domain, ".", '@');
    CountCharAppend(local + "@" + domain + ".", tld, '@');
  }

  /** No character of a well-formed piece is `c` when `c` is outside all
      three classes. */
  lemma {:induction false} NoneOf(s: string, c: char)
    requires !IsLocalChar(c) && !IsDomainChar(c) && !IsLetter(c)
    requires AllLocal(s) || AllDomain(s) || AllLetters(s)
    ensures CountChar(s, c) == 0
  {
    if s != [] {
      var r := s[1..];
      assert s[0] != c;
      assert AllLocal(r) || AllDomain(r) || AllLetters(r);
      NoneOf(r, c);
    }
  }

  /** An accepted address holds exactly one `@`, wherever the trailing
      line feed that `$` tolerates is. */
  lemma ValidEmailOneAt(s: string)
    requires ValidEmail(s)
    ensures CountChar(s, '@') == 1
  {
    var t := Body(s);
    PartsHaveOneAt(t);
    CountCharAppend(t, "\n", '@');
    assert CountChar("\n", '@') == 0 by {
      assert "\n"[1..] == [];
    }
  }

  /** The tld ends every whole match, so its last character is a letter. */
  lemma WholeMatchEndsInLetter(t: string)
    requires MatchesWhole(t)
    ensures |t| > 0 && IsLetter(t[|t| - 1])
  {
    var local, domain, tld :| IsSplit(t, local, domain, tld);
    assert t[|t| - 1] == tld[|tld| - 1];
  }

  /** After the last dot of an accepted address (trailing line feed
      aside) come at least two ASCII letters and nothing else, so no
      digit, `-` or further `.`; between the `@` and that dot the domain
      is not empty. */
  lemma ValidEmailTld(s: string)
    ensures ValidEmail(s) ==>
      var t := Body(s);
      && FirstIndex(t, '@').Some? && LastIndex(t, '.').Some?
      && FirstIndex(t, '@').value + 1 < LastIndex(t, '.').value <= |t| - 3
      && forall i | LastIndex(t, '.').value < i < |t| :: IsLetter(t[i])
  {
    if ValidEmail(s) {
      var t := Body(s);
      var (local, domain, tld) := Decompose(t).value;
      var k := |local| + 1 + |domain|;
      assert t[k] == '.' && t[k + 1..] == tld;
      LastIndexUnique(t, '.', k);
    }
  }

  /** The pattern admits a typical address, and one followed by the single
      trailing line feed that `$` tolerates. */
  lemma PatternAcceptsExamples()
    ensures PatternAccepts("jo.doe+1@mail.example.com")
    ensures PatternAccepts("a@b.co\n")
  {
    PatternAcceptsTypical();
    assert IsSplit("a@b.co", "a", "b", "co");
    assert "a@b.co\n"[..6] == "a@b.co";
  }

  lemma PatternAcceptsTypical()
    ensures MatchesWhole("jo.doe+1@mail.example.com")
  {
    assert IsSplit("jo.doe+1@mail.example.com", "jo.doe+1", "mail.example", "com");
  }

  lemma ValidEmailAcceptsExamples()
    ensures ValidEmail("jo.doe+1@mail.example.com")
    ensures ValidEmail("a@b.co\n")
  {
    PatternAcceptsExamples();
  }

  /** Rejection of an empty local part, an empty domain, a dot-less
      domain and a one-letter tld. */
  lemma ValidEmailRejectsMissingParts()
    ensures !ValidEmail("@b.co")
    ensures !ValidEmail("a@.co")
    ensures !ValidEmail("a@bco")
    ensures !ValidEmail("a@b.c")
  {
  }

  /** Rejection of a second trailing line feed. */
  lemma ValidEmailRejectsSecondNewline()
    ensures !ValidEmail("a@b.co\n\n")
  {
    var s := "a@b.co\n\n";
    var t := Body(s);
    assert t == "a@b.co\n";
    LastIndexUnique(t, '.', 3);
    ValidEmailTld(s);
    assert !IsLetter(t[6]);
  }

  /** Rejection of a second `@`. */
  lemma ValidEmailRejectsSecondAt()
    ensures !ValidEmail("a@b@c.co")
  {
    if ValidEmail("a@b@c.co") {
      ValidEmailOneAt("a@b@c.co");
    }
  }

  /** Rejection of a digit in the tld. */
  lemma ValidEmailRejectsDigitInTld()
    ensures !ValidEmail("a@b.c0m")
  {
    var s := "a@b.c0m";
    assert Body(s) == s;
    LastIndexUnique(s, '.', 3);
    ValidEmailTld(s);
    assert !IsLetter(s[5]);
  }
}
