/** Semantic Versioning 2.0.0 values and their precedence (section 11 of the
    Semantic Versioning 2.0.0 specification). The update checker obtains
    versions from a parser it does not define; here that parser is any
    function `string -> Option<SemVer>` and a string is "parseable" when the
    parser returns a value. */
module SemVer {
  import opened Wrappers

  /** One dot-separated pre-release identifier: digits only (compared
      numerically) or alphanumeric (compared lexically in ASCII order). */
  datatype Ident = Num(n: nat) | Alnum(s: string)

  datatype SemVer = SemVer(major: nat, minor: nat, patch: nat, pre: seq<Ident>, build: seq<string>)

  /** A version parser, abstract: the library's accepted syntax is not modelled. */
  type Parser = string -> Option<SemVer>

  predicate Parseable(parse: Parser, s: string)
  {
    parse(s).Some?
  }

  /** Lexical comparison of strings by character code, a proper prefix first. */
  predicate StrLess(a: string, b: string)
  {
    if |a| == 0 then |b| > 0
    else if |b| == 0 then false
    else a[0] < b[0] || (a[0] == b[0] && StrLess(a[1..], b[1..]))
  }

  /** Section 11.4.1-11.4.3: numeric identifiers by value, alphanumeric ones
      lexically, numeric before alphanumeric. */
  predicate IdentLess(a: Ident, b: Ident)
  {
    match (a, b)
    case (Num(x), Num(y)) => x < y
    case (Num(_), Alnum(_)) => true
    case (Alnum(_), Num(_)) => false
    case (Alnum(x), Alnum(y)) => StrLess(x, y)
  }

  /** Section 11.4: identifiers compared left to right; when all of the
      shorter list equal the start of the longer, the longer one is greater. */
  predicate IdentsLess(a: seq<Ident>, b: seq<Ident>)
  {
    if |a| == 0 then |b| > 0
    else if |b| == 0 then false
    else IdentLess(a[0], b[0]) || (a[0] == b[0] && IdentsLess(a[1..], b[1..]))
  }

  /** Section 11.3: with equal major.minor.patch, a pre-release version has
      lower precedence than the normal version. */
  predicate PreLess(a: seq<Ident>, b: seq<Ident>)
  {
    if |a| == 0 then false
    else if |b| == 0 then true
    else IdentsLess(a, b)
  }

  /** Same major.minor.patch. */
  predicate SameCore(a: SemVer, b: SemVer)
  {
    a.major == b.major && a.minor == b.minor && a.patch == b.patch
  }

  /** Section 11.2: numeric comparison of major, minor and patch in turn. */
  predicate CoreLess(a: SemVer, b: SemVer)
  {
    a.major < b.major
    || (a.major == b.major && a.minor < b.minor)
    || (a.major == b.major && a.minor == b.minor && a.patch < b.patch)
  }

  /** `a` has lower precedence than `b`; build metadata is ignored (11.1). */
  predicate Less(a: SemVer, b: SemVer)
  {
    CoreLess(a, b) || (SameCore(a, b) && PreLess(a.pre, b.pre))
  }

  /** Equal precedence: everything but build metadata agrees. */
  predicate SamePrecedence(a: SemVer, b: SemVer)
  {
    SameCore(a, b) && a.pre == b.pre
  }

  lemma {:induction false} StrLessIrreflexive(a: string)
    ensures !StrLess(a, a)
  {
    if |a| > 0 {
      StrLessIrreflexive(a[1..]);
    }
  }

  lemma {:induction false} StrLessTransitive(a: string, b: string, c: string)
    requires StrLess(a, b) && StrLess(b, c)
    ensures StrLess(a, c)
  {
    if |a| > 0 && |b| > 0 && |c| > 0 && a[0] == b[0] == c[0] {
      StrLessTransitive(a[1..], b[1..], c[1..]);
    }
  }

  lemma {:induction false} StrLessTotal(a: string, b: string)
    requires a != b
    ensures StrLess(a, b) || StrLess(b, a)
  {
    if |a| > 0 && |b| > 0 && a[0] == b[0] {
      assert a == [a[0]] + a[1..] && b == [b[0]] + b[1..];
      StrLessTotal(a[1..], b[1..]);
    }
  }

  lemma IdentLessIrreflexive(a: Ident)
    ensures !IdentLess(a, a)
  {
    if a.Alnum? {
      StrLessIrreflexive(a.s);
    }
  }

  lemma IdentLessTransitive(a: Ident, b: Ident, c: Ident)
    requires IdentLess(a, b) && IdentLess(b, c)
    ensures IdentLess(a, c)
  {
    if a.Alnum? && b.Alnum? && c.Alnum? {
      StrLessTransitive(a.s, b.s, c.s);
    }
  }

  lemma IdentLessTotal(a: Ident, b: Ident)
    requires a != b
    ensures IdentLess(a, b) || IdentLess(b, a)
  {
    if a.Alnum? && b.Alnum? {
      StrLessTotal(a.s, b.s);
    }
  }

  lemma {:induction false} IdentsLessIrreflexive(a: seq<Ident>)
    ensures !IdentsLess(a, a)
  {
    if |a| > 0 {
      IdentLessIrreflexive(a[0]);
      IdentsLessIrreflexive(a[1..]);
    }
  }

  lemma {:induction false} IdentsLessTransitive(a: seq<Ident>, b: seq<Ident>, c: seq<Ident>)
    requires IdentsLess(a, b) && IdentsLess(b, c)
    ensures IdentsLess(a, c)
  {
    if |a| > 0 && |b| > 0 && |c| > 0 {
      if IdentLess(a[0], b[0]) && IdentLess(b[0], c[0]) {
        IdentLessTransitive(a[0], b[0], c[0]);
      } else if a[0] == b[0] == c[0] {
        IdentsLessTransitive(a[1..], b[1..], c[1..]);
      }
    }
  }

  lemma {:induction false} IdentsLessTotal(a: seq<Ident>, b: seq<Ident>)
    requires a != b
    ensures IdentsLess(a, b) || IdentsLess(b, a)
  {
    if |a| > 0 && |b| > 0 {
      if a[0] == b[0] {
        assert a == [a[0]] + a[1..] && b == [b[0]] + b[1..];
        IdentsLessTotal(a[1..], b[1..]);
      } else {
        IdentLessTotal(a[0], b[0]);
      }
    }
  }

  /** Precedence is irreflexive: no version precedes itself. */
  lemma LessIrreflexive(a: SemVer)
    ensures !Less(a, a)
  {
    IdentsLessIrreflexive(a.pre);
  }

  /** Precedence is transitive. */
  lemma LessTransitive(a: SemVer, b: SemVer, c: SemVer)
    requires Less(a, b) && Less(b, c)
    ensures Less(a, c)
  {
    if SameCore(a, b) && SameCore(b, c) && |a.pre| > 0 && |b.pre| > 0 && |c.pre| > 0 {
      IdentsLessTransitive(a.pre, b.pre, c.pre);
    }
  }

  /** Precedence is asymmetric: at most one of two versions precedes the other. */
  lemma LessAsymmetric(a: SemVer, b: SemVer)
    ensures !(Less(a, b) && Less(b, a))
  {
    if Less(a, b) && Less(b, a) {
      LessTransitive(a, b, a);
      LessIrreflexive(a);
    }
  }

  /** Precedence is total up to build metadata: two versions either have the
      same precedence or exactly one precedes the other. */
  lemma LessTrichotomy(a: SemVer, b: SemVer)
    ensures SamePrecedence(a, b) || Less(a, b) || Less(b, a)
    ensures SamePrecedence(a, b) ==> !Less(a, b) && !Less(b, a)
  {
    if SameCore(a, b) && a.pre != b.pre && |a.pre| > 0 && |b.pre| > 0 {
      IdentsLessTotal(a.pre, b.pre);
    }
    if SamePrecedence(a, b) {
      IdentsLessIrreflexive(a.pre);
    }
  }

  /** The precedence examples of section 11:
      1.0.0-alpha < 1.0.0-alpha.1 < 1.0.0-alpha.beta < 1.0.0-beta < 1.0.0-beta.2
      < 1.0.0-beta.11 < 1.0.0-rc.1 < 1.0.0, and 1.9.9 < 2.0.0. */
  lemma PrecedenceExamples()
    ensures Less(SemVer(1, 0, 0, [Alnum("alpha")], []), SemVer(1, 0, 0, [Alnum("alpha"), Num(1)], []))
    ensures Less(SemVer(1, 0, 0, [Alnum("alpha"), Num(1)], []), SemVer(1, 0, 0, [Alnum("alpha"), Alnum("beta")], []))
    ensures Less(SemVer(1, 0, 0, [Alnum("alpha"), Alnum("beta")], []), SemVer(1, 0, 0, [Alnum("beta")], []))
    ensures Less(SemVer(1, 0, 0, [Alnum("beta")], []), SemVer(1, 0, 0, [Alnum("beta"), Num(2)], []))
    ensures Less(SemVer(1, 0, 0, [Alnum("beta"), Num(2)], []), SemVer(1, 0, 0, [Alnum("beta"), Num(11)], []))
    ensures Less(SemVer(1, 0, 0, [Alnum("beta"), Num(11)], []), SemVer(1, 0, 0, [Alnum("rc"), Num(1)], []))
    ensures Less(SemVer(1, 0, 0, [Alnum("rc"), Num(1)], []), SemVer(1, 0, 0, [], []))
    ensures Less(SemVer(1, 9, 9, [], []), SemVer(2, 0, 0, [], []))
    ensures !Less(SemVer(2, 0, 0, [], []), SemVer(1, 9, 9, [], []))
  {
    var alpha, beta, rc := Alnum("alpha"), Alnum("beta"), Alnum("rc");
    assert IdentsLess([alpha], [alpha, Num(1)]) by { assert [alpha][1..] == []; }
    assert StrLess("alpha", "beta");
    assert StrLess("beta", "rc");
  }
}
