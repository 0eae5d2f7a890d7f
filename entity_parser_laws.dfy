/** What the property cache of `EntityParser` keeps, proved about its specification. */
module EntityParserLaws {
  import opened Wrappers
  import opened Attributes
  import opened Mapping
  import opened EntityParser

  // -------------------------------------------------------- reference rules

  /** Property names are unique within a class, as PHP enforces. */
  predicate UniqueNames(declared: seq<(string, seq<XmlProperty>)>) {
    forall j, k :: 0 <= j < k < |declared| ==> declared[j].0 != declared[k].0
  }

  /** The reference: every property that has an `XmlProperty` attribute, with its first one, in declaration order. */
  function Annotated(declared: seq<(string, seq<XmlProperty>)>): Rules {
    if declared == [] then []
    else
      var (name, attrs) := declared[0];
      (if |attrs| > 0 then [(name, attrs[0])] else []) + Annotated(declared[1..])
  }

  /** The names of the annotated properties among the first `i`. */
  function AnnotatedNames(declared: seq<(string, seq<XmlProperty>)>, i: nat): set<string>
    requires i <= |declared|
  {
    set j | 0 <= j < i && |declared[j].1| > 0 :: declared[j].0
  }

  lemma {:induction false} AnnotatedConcat(a: seq<(string, seq<XmlProperty>)>, b: seq<(string, seq<XmlProperty>)>)
    ensures Annotated(a + b) == Annotated(a) + Annotated(b)
    decreases |a|
  {
    if a == [] {
      assert a + b == b;
    } else {
      assert (a + b)[0] == a[0];
      assert (a + b)[1..] == a[1..] + b;
      AnnotatedConcat(a[1..], b);
    }
  }

  /** The cache entry holds exactly the names of the annotated properties, duplicates or not. */
  lemma {:induction false} RulesUpToNames(declared: seq<(string, seq<XmlProperty>)>, i: nat)
    requires i <= |declared|
    ensures RuleNames(RulesUpTo(declared, i)) == AnnotatedNames(declared, i)
  {
    if i == 0 {
      assert AnnotatedNames(declared, 0) == {};
      assert RuleNames([]) == {};
    } else {
      RulesUpToNames(declared, i - 1);
      var (name, attrs) := declared[i - 1];
      if |attrs| == 0 {
        assert AnnotatedNames(declared, i) == AnnotatedNames(declared, i - 1);
      } else {
        AssignLaws(RulesUpTo(declared, i - 1), name, attrs[0]);
        assert AnnotatedNames(declared, i) == AnnotatedNames(declared, i - 1) + {name};
      }
    }
  }

  lemma AnnotatedSnoc(declared: seq<(string, seq<XmlProperty>)>, i: nat)
    requires 0 < i <= |declared|
    ensures Annotated(declared[..i]) == Annotated(declared[..i - 1]) +
      (if |declared[i - 1].1| > 0 then [(declared[i - 1].0, declared[i - 1].1[0])] else [])
  {
    assert declared[..i] == declared[..i - 1] + [declared[i - 1]];
    AnnotatedConcat(declared[..i - 1], [declared[i - 1]]);
    assert [declared[i - 1]][1..] == [];
  }

  /** A property name unseen so far is appended by the loop of `parseProperties`. */
  lemma FreshNameAppends(declared: seq<(string, seq<XmlProperty>)>, i: nat)
    requires 0 < i <= |declared| && UniqueNames(declared) && |declared[i - 1].1| > 0
    ensures RulesUpTo(declared, i) == RulesUpTo(declared, i - 1) + [(declared[i - 1].0, declared[i - 1].1[0])]
  {
    RulesUpToNames(declared, i - 1);
    assert declared[i - 1].0 !in AnnotatedNames(declared, i - 1);
    AssignLaws(RulesUpTo(declared, i - 1), declared[i - 1].0, declared[i - 1].1[0]);
  }

  /** With unique names the loop of `parseProperties` builds the reference list. */
  lemma {:induction false} RulesUpToIsAnnotated(declared: seq<(string, seq<XmlProperty>)>, i: nat)
    requires i <= |declared| && UniqueNames(declared)
    ensures RulesUpTo(declared, i) == Annotated(declared[..i])
  {
    if i == 0 {
      assert declared[..0] == [];
    } else {
      RulesUpToIsAnnotated(declared, i - 1);
      AnnotatedSnoc(declared, i);
      if |declared[i - 1].1| > 0 {
        FreshNameAppends(declared, i);
      }
    }
  }

  // ------------------------------------------------------------------ cache

  /** A fresh named class gets the reference list, and the cache keeps it under the class name. */
  lemma ParseFreshClass(cache: map<string, Rules>, cls: ClassRef)
    requires cls.Declared? && !cls.anonymous && cls.className !in cache && UniqueNames(cls.declaredProps)
    ensures ParsePropertiesSpec(cache, cls) == (Some(Annotated(cls.declaredProps)), cache[cls.className := Annotated(cls.declaredProps)])
  {
    RulesUpToIsAnnotated(cls.declaredProps, |cls.declaredProps|);
    assert cls.declaredProps[..|cls.declaredProps|] == cls.declaredProps;
  }

  /**
   * The cache is stable: asking again leaves it as it is and, except for the
   * first look at an anonymous class, gives the same answer.
   */
  lemma ParsePropertiesMemo(cache: map<string, Rules>, cls: ClassRef)
    ensures var (r, c) := ParsePropertiesSpec(cache, cls);
      ParsePropertiesSpec(c, cls).1 == c &&
      (r.Some? || cls.StdClass? ==> ParsePropertiesSpec(c, cls).0 == r)
  {
  }

  /** An anonymous class: null the first time, then the `[]` written before the check. */
  lemma AnonymousQuirk(cache: map<string, Rules>, cls: ClassRef)
    requires cls.Declared? && cls.anonymous && cls.className !in cache
    ensures var (r, c) := ParsePropertiesSpec(cache, cls);
      r == None && ParsePropertiesSpec(c, cls) == (Some([]), c)
  {
  }

  /** `stdClass` is never cached; another class's entry is never touched; a declared class's name is cached. */
  lemma CacheFrame(cache: map<string, Rules>, cls: ClassRef, other: string)
    ensures cls.StdClass? ==> ParsePropertiesSpec(cache, cls) == (None, cache)
    ensures cls.Declared? ==> ParsePropertiesSpec(cache, cls).1.Keys == cache.Keys + {cls.className}
    ensures cls.Declared? && other != cls.className && other in cache ==>
      ParsePropertiesSpec(cache, cls).1[other] == cache[other]
    ensures cls.Declared? && cls.className in cache ==> ParsePropertiesSpec(cache, cls) == (Some(cache[cls.className]), cache)
  {
  }
}
