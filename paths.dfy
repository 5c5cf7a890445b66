/** The optional value that stands for a C# null reference. */
module Wrappers {
  datatype Option<+T> = None | Some(value: T)
}

/**
 * Ordering of manifest paths. Paths compare character by character on code
 * points; a missing path (the null path of the tail record) sorts after
 * every real path.
 */
module Paths {
  import opened Wrappers

  /** `a` sorts strictly before `b`. */
  predicate Below(a: string, b: string)
    decreases |a|
  {
    if |a| == 0 then |b| > 0
    else if |b| == 0 then false
    else a[0] < b[0] || (a[0] == b[0] && Below(a[1..], b[1..]))
  }

  lemma {:induction false} BelowIrreflexive(a: string)
    ensures !Below(a, a)
    decreases |a|
  {
    if |a| > 0 {
      BelowIrreflexive(a[1..]);
    }
  }

  lemma {:induction false} BelowTransitive(a: string, b: string, c: string)
    requires Below(a, b) && Below(b, c)
    ensures Below(a, c)
    decreases |a|
  {
    if |a| > 0 && a[0] == b[0] && b[0] == c[0] {
      BelowTransitive(a[1..], b[1..], c[1..]);
    }
  }

  lemma BelowAsymmetric(a: string, b: string)
    requires Below(a, b)
    ensures !Below(b, a)
  {
    if Below(b, a) {
      BelowTransitive(a, b, a);
      BelowIrreflexive(a);
    }
  }

  lemma {:induction false} BelowTotal(a: string, b: string)
    ensures a == b || Below(a, b) || Below(b, a)
    decreases |a|
  {
    if |a| > 0 && |b| > 0 && a[0] == b[0] {
      BelowTotal(a[1..], b[1..]);
      if a[1..] == b[1..] {
        assert a == [a[0]] + a[1..] && b == [b[0]] + b[1..];
      }
    }
  }

  /** Order on optional paths: `None` is past every key. */
  predicate KeyBelow(a: Option<string>, b: Option<string>) {
    a.Some? && (b.None? || Below(a.value, b.value))
  }

  lemma KeyBelowIrreflexive(a: Option<string>)
    ensures !KeyBelow(a, a)
  {
    if a.Some? {
      BelowIrreflexive(a.value);
    }
  }

  lemma KeyBelowTransitive(a: Option<string>, b: Option<string>, c: Option<string>)
    requires KeyBelow(a, b) && KeyBelow(b, c)
    ensures KeyBelow(a, c)
  {
    if c.Some? {
      BelowTransitive(a.value, b.value, c.value);
    }
  }

  lemma KeyTotal(a: Option<string>, b: Option<string>)
    ensures a == b || KeyBelow(a, b) || KeyBelow(b, a)
  {
    if a.Some? && b.Some? {
      BelowTotal(a.value, b.value);
    }
  }
}
