/** Concatenations grouped in another way. */
module Sequences {
  lemma Regroup<T>(a: seq<T>, b: seq<T>, c: seq<T>)
    ensures (a + b) + c == a + (b + c)
  {
  }

  lemma Regroup3<T>(o: seq<T>, a: seq<T>, b: seq<T>, c: seq<T>)
    ensures o + a + b + c == o + (a + (b + c))
  {
    Regroup(o + a, b, c);
    Regroup(o, a, b + c);
  }

  lemma Regroup4<T>(o: seq<T>, a: seq<T>, b: seq<T>, c: seq<T>, d: seq<T>)
    ensures o + a + b + c + d == o + (a + (b + (c + d)))
  {
    Regroup3(o + a, b, c, d);
    Regroup(o, a, b + (c + d));
  }

  lemma Regroup6<T>(o: seq<T>, a: seq<T>, b: seq<T>, c: seq<T>, d: seq<T>, e: seq<T>, f: seq<T>)
    ensures o + a + b + c + d + e + f == o + (a + (b + (c + (d + (e + f)))))
  {
    Regroup4(o + a + b, c, d, e, f);
    Regroup(o + a, b, c + (d + (e + f)));
    Regroup(o, a, b + (c + (d + (e + f))));
  }
}
