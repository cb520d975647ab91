/**
  What every module of the model shares: Rust's `Option` and `Result`, and
  the `filter_map` that keeps the values of the `Some`s.
 */
module Common {

  datatype Option<T> = None | Some(value: T)

  datatype Result<T, E> = Ok(value: T) | Err(error: E)

  /** The values held by the `Some`s of `xs`, in order (a `filter_map` tail). */
  function Somes<T(!new)>(xs: seq<Option<T>>): (r: seq<T>)
    ensures |r| <= |xs|
    ensures forall y :: y in r <==> Some(y) in xs
  {
    if xs == [] then []
    else if xs[0].Some? then [xs[0].value] + Somes(xs[1..])
    else Somes(xs[1..])
  }

  /** Filtering distributes over concatenation, so survivors keep their order. */
  lemma {:induction false} SomesAppend<T(!new)>(a: seq<Option<T>>, b: seq<Option<T>>)
    ensures Somes(a + b) == Somes(a) + Somes(b)
    decreases |a|
  {
    if a == [] {
      assert a + b == b;
    } else {
      assert (a + b)[1..] == a[1..] + b;
      SomesAppend(a[1..], b);
    }
  }

  lemma SomesSnoc<T(!new)>(xs: seq<Option<T>>, x: Option<T>)
    ensures Somes(xs + [x]) == Somes(xs) + (if x.Some? then [x.value] else [])
  {
    SomesAppend(xs, [x]);
    assert [x][1..] == [];
  }

  /** The number of `Some`s in `xs`. */
  function CountSome<T>(xs: seq<Option<T>>): nat {
    if xs == [] then 0 else (if xs[0].Some? then 1 else 0) + CountSome(xs[1..])
  }

  lemma {:induction false} SomesLength<T(!new)>(xs: seq<Option<T>>)
    ensures |Somes(xs)| == CountSome(xs)
    decreases |xs|
  {
    if xs != [] {
      SomesLength(xs[1..]);
    }
  }

  /**
    Survivors keep their order: the value of the `Some` at position `i` is
    the result's element at the number of `Some`s before `i`.
   */
  lemma {:induction false} SomesAt<T(!new)>(xs: seq<Option<T>>)
    ensures |Somes(xs)| == CountSome(xs)
    ensures forall i :: 0 <= i < |xs| && xs[i].Some? ==>
      CountSome(xs[..i]) < |Somes(xs)| && Somes(xs)[CountSome(xs[..i])] == xs[i].value
    decreases |xs|
  {
    SomesLength(xs);
    if xs != [] {
      var rest := xs[1..];
      SomesAt(rest);
      var head := if xs[0].Some? then [xs[0].value] else [];
      assert Somes(xs) == head + Somes(rest);
      forall i | 0 <= i < |xs| && xs[i].Some?
        ensures CountSome(xs[..i]) < |Somes(xs)| && Somes(xs)[CountSome(xs[..i])] == xs[i].value
      {
        if i == 0 {
          assert xs[..0] == [];
        } else {
          assert xs[..i][1..] == rest[..i - 1];
          assert CountSome(xs[..i]) == |head| + CountSome(rest[..i - 1]);
          assert rest[i - 1] == xs[i];
        }
      }
    }
  }
}
