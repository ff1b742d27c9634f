/** C string comparison on NUL-free strings. */
module CStrings {

  /** strcmp: the sign of the result is its meaning. */
  function Strcmp(a: string, b: string): int {
    if a == [] then (if b == [] then 0 else -1)
    else if b == [] then 1
    else if a[0] != b[0] then a[0] as int - b[0] as int
    else Strcmp(a[1..], b[1..])
  }

  /** strncmp(a, b, n) == 0 */
  predicate SameFirst(a: string, b: string, n: nat) {
    if |a| < n || |b| < n then a == b else a[..n] == b[..n]
  }

  lemma {:induction false} StrcmpZero(a: string, b: string)
    ensures Strcmp(a, b) == 0 <==> a == b
  {
    if a != [] && b != [] {
      StrcmpZero(a[1..], b[1..]);
      assert a == [a[0]] + a[1..] && b == [b[0]] + b[1..];
    }
  }

  lemma {:induction false} StrcmpAntisym(a: string, b: string)
    ensures Strcmp(a, b) < 0 <==> Strcmp(b, a) > 0
  {
    if a != [] && b != [] {
      StrcmpAntisym(a[1..], b[1..]);
    }
  }

  lemma {:induction false} StrcmpTrans(a: string, b: string, c: string)
    requires Strcmp(a, b) <= 0 && Strcmp(b, c) <= 0
    ensures Strcmp(a, c) <= 0
    ensures Strcmp(a, b) < 0 || Strcmp(b, c) < 0 ==> Strcmp(a, c) < 0
  {
    if a != [] && b != [] && c != [] && a[0] == b[0] == c[0] {
      StrcmpTrans(a[1..], b[1..], c[1..]);
    }
  }

  /** A common prefix does not matter. */
  lemma {:induction false} StrcmpPrefix(p: string, a: string, b: string)
    ensures Strcmp(p + a, p + b) == Strcmp(a, b)
  {
    if p == [] {
      assert p + a == a && p + b == b;
    } else {
      StrcmpPrefix(p[1..], a, b);
      assert (p + a)[1..] == p[1..] + a && (p + b)[1..] == p[1..] + b;
    }
  }

  /** On strings of equal length the last characters decide only if everything before is equal. */
  lemma {:induction false} StrcmpLast(a: string, b: string, c: char, d: char)
    requires |a| == |b|
    ensures Strcmp(a + [c], b + [d]) == if a == b then c as int - d as int else Strcmp(a, b)
  {
    if a != [] {
      StrcmpLast(a[1..], b[1..], c, d);
      assert (a + [c])[1..] == a[1..] + [c] && (b + [d])[1..] == b[1..] + [d];
      assert a == [a[0]] + a[1..] && b == [b[0]] + b[1..];
    }
  }
}
