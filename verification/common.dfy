/**
 * Shared vocabulary of the model: optional values (Java's nullable
 * references), results that carry the exceptions the service lets escape,
 * and Java's signed byte.
 */
module Common {

  /** A Java reference that may be null. */
  datatype Option<+T> = None | Some(value: T)

  /** The exceptions that escape the modelled operations to their caller. */
  datatype Failure =
    | NullPointer        // a method called on a null reference
    | IndexOutOfBounds   // an array read past its end
    | VersionMismatch    // the RuntimeException wrapping QblVersionMismatchException
    | PayloadTooLarge    // QblDropPayloadSizeException, raised while encoding
    | FileNotFound       // FileNotFoundException from the document id parser

  /** Either the value an operation returns or the exception it throws. */
  datatype Result<+T> = Ok(value: T) | Err(error: Failure)

  /** Java's signed 8-bit byte. */
  newtype Byte = b: int | -128 <= b < 128

  /** A raw byte array as it travels over the wire. */
  type Blob = seq<Byte>

  /** Position `i` holds the last element of `xs` whose key is `key(xs[i])`. */
  predicate LastWithKey<K(==), V>(xs: seq<V>, key: V -> K, i: int)
  {
    && 0 <= i < |xs|
    && forall j :: i < j < |xs| ==> key(xs[j]) != key(xs[i])
  }

  /**
   * The map obtained by putting every element of `xs`, in order, into an
   * initially empty container keyed by `key`: a later element replaces an
   * earlier one with the same key.
   */
  function PutAll<K(==), V>(xs: seq<V>, key: V -> K): (r: map<K, V>)
    ensures r.Keys == set x | x in xs :: key(x)
    ensures forall k :: k in r ==> r[k] in xs && key(r[k]) == k
    ensures forall i :: LastWithKey(xs, key, i) ==> r[key(xs[i])] == xs[i]
  {
    if xs == [] then map[]
    else
      var init := xs[..|xs| - 1];
      var last := xs[|xs| - 1];
      assert xs == init + [last];
      var m := PutAll(init, key);
      assert forall i :: LastWithKey(xs, key, i) && i < |init| ==>
        LastWithKey(init, key, i) && init[i] == xs[i] && key(xs[i]) != key(last);
      m[key(last) := last]
  }

  /** No element listed twice. */
  predicate Distinct<T(==)>(xs: seq<T>)
  {
    forall i, j :: 0 <= i < j < |xs| ==> xs[i] != xs[j]
  }

  /** A sequence without repetitions has as many distinct elements as positions. */
  lemma {:induction false} DistinctCardinality<T>(xs: seq<T>)
    requires Distinct(xs)
    ensures |set x | x in xs| == |xs|
  {
    if xs != [] {
      var rest := xs[1..];
      assert Distinct(rest) by {
        forall i, j | 0 <= i < j < |rest|
          ensures rest[i] != rest[j]
        {
          assert rest[i] == xs[i + 1] && rest[j] == xs[j + 1];
        }
      }
      DistinctCardinality(rest);
      assert (set x | x in xs) == (set x | x in rest) + {xs[0]};
      assert xs[0] !in (set x | x in rest) by {
        forall i | 0 <= i < |rest|
          ensures rest[i] != xs[0]
        {
          assert rest[i] == xs[i + 1];
        }
      }
    }
  }
}
