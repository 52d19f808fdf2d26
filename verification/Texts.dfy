/** The order of strings: Rust compares UTF-8 bytes, which orders texts as their characters do. */
module Texts {

  predicate AtMost(a: string, b: string) {
    a == "" || (b != "" && (a[0] < b[0] || (a[0] == b[0] && AtMost(a[1..], b[1..]))))
  }

  predicate Below(a: string, b: string) {
    !AtMost(b, a)
  }

  lemma {:induction false} OrderIsTotal(a: string, b: string)
    ensures AtMost(a, b) || AtMost(b, a)
  {
    if a != "" && b != "" {
      OrderIsTotal(a[1..], b[1..]);
    }
  }

  lemma {:induction false} OrderIsAntisymmetric(a: string, b: string)
    requires AtMost(a, b) && AtMost(b, a)
    ensures a == b
  {
    if a != "" && b != "" {
      OrderIsAntisymmetric(a[1..], b[1..]);
      assert a == [a[0]] + a[1..] && b == [b[0]] + b[1..];
    }
  }

  lemma {:induction false} OrderIsTransitive(a: string, b: string, c: string)
    requires AtMost(a, b) && AtMost(b, c)
    ensures AtMost(a, c)
  {
    if a != "" && b != "" && c != "" && a[0] == b[0] == c[0] {
      OrderIsTransitive(a[1..], b[1..], c[1..]);
    }
  }

  lemma {:induction false} LeastExists(keys: set<string>) returns (least: string)
    requires keys != {}
    ensures least in keys && forall key <- keys :: AtMost(least, key)
    decreases |keys|
  {
    var some :| some in keys;
    var rest := keys - {some};
    OrderIsTotal(some, some);
    if rest == {} {
      assert keys == {some};
      least := some;
    } else {
      var least' := LeastExists(rest);
      OrderIsTotal(some, least');
      least := if AtMost(some, least') then some else least';
      forall key | key in keys ensures AtMost(least, key) {
        if key in rest && least == some {
          OrderIsTransitive(some, least', key);
        }
      }
    }
  }
}
