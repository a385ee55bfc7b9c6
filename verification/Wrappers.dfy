module Wrappers {
  datatype Option<+T> = None | Some(value: T)

  /** Concatenation is associative. */
  lemma Assoc<T>(a: seq<T>, b: seq<T>, c: seq<T>)
    ensures a + (b + c) == (a + b) + c
  {
  }

  /** Moving the first element of the second sequence to the end of the first */
  lemma SnocCons<T>(a: seq<T>, x: T, b: seq<T>)
    ensures a + ([x] + b) == (a + [x]) + b
  {
  }

  /** The rest of a sequence from a position on, taken apart */
  lemma DropOne<T>(all: seq<T>, k: nat, x: T, rest: seq<T>)
    requires k <= |all| && all[k..] == [x] + rest
    ensures k < |all| && all[k] == x && all[k + 1..] == rest
  {
    assert all[k..][0] == x;
    assert all[k..][1..] == rest;
  }
}
