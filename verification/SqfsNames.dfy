/** The order of names in a directory, and what `strncmp` says about it. */
module SqfsNames {
  import opened Types

  type Name = seq<byte>

  predicate NoZero(s: Name) {
    forall i :: 0 <= i < |s| ==> s[i] != 0
  }

  /** The strict order of strings, from position `i` on. */
  predicate LessFrom(a: Name, b: Name, i: nat)
    requires i <= |a| && i <= |b|
    decreases |a| - i
  {
    if i == |b| then false
    else if i == |a| then true
    else if a[i] != b[i] then a[i] < b[i]
    else LessFrom(a, b, i + 1)
  }

  predicate Less(a: Name, b: Name) {
    LessFrom(a, b, 0)
  }

  /** The character at `i`; a string ends with a zero. */
  function CharAt(s: Name, i: nat): byte {
    if i < |s| then s[i] else 0
  }

  /** `strncmp`, from position `i` on. */
  function Compare(a: Name, b: Name, i: nat, n: nat): int
    requires i <= n
    decreases n - i
  {
    if i == n then 0
    else if CharAt(a, i) != CharAt(b, i) then CharAt(a, i) - CharAt(b, i)
    else if CharAt(a, i) == 0 then 0
    else Compare(a, b, i + 1, n)
  }

  lemma {:induction false} LessIrreflexive(a: Name, i: nat)
    requires i <= |a|
    ensures !LessFrom(a, a, i)
    decreases |a| - i
  {
    if i < |a| { LessIrreflexive(a, i + 1); }
  }

  /**
   Comparing as many characters as `b` has tells whether `a` comes before `b`, and with the lengths, whether behind.
   */
  lemma {:induction false} CompareMeans(a: Name, b: Name, i: nat)
    requires NoZero(a) && NoZero(b) && i <= |a| && i <= |b| && a[..i] == b[..i]
    ensures var order := Compare(a, b, i, |b|);
            && (order < 0 <==> LessFrom(a, b, i))
            && (order > 0 || (order == 0 && |a| > |b|) <==> LessFrom(b, a, i))
            && (order == 0 && |a| == |b| <==> a == b)
    decreases |b| - i
  {
    if i == |b| {
      if |a| == |b| { assert a == a[..i] && b == b[..i]; }
    } else if i < |a| && a[i] == b[i] {
      assert a[..i + 1] == a[..i] + [a[i]] && b[..i + 1] == b[..i] + [b[i]];
      CompareMeans(a, b, i + 1);
    }
  }

  /** A name that compares equal over its whole length is the name, whatever the other string holds. */
  lemma {:induction false} EqualIsSame(a: Name, b: Name, i: nat)
    requires NoZero(a) && |a| == |b| && i <= |a| && a[..i] == b[..i] && Compare(a, b, i, |b|) == 0
    ensures a == b
    decreases |b| - i
  {
    if i == |b| {
      assert a == a[..i] && b == b[..i];
    } else {
      assert a[..i + 1] == a[..i] + [a[i]] && b[..i + 1] == b[..i] + [b[i]];
      EqualIsSame(a, b, i + 1);
    }
  }
}
