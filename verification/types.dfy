/** Machine words and small sequence vocabulary shared by every component. */
module Types {

  /** An 8-bit unsigned value (`zb_uint8_t`). */
  type byte = x: int | 0 <= x < 0x100

  /** A 16-bit unsigned value (`zb_uint16_t`). */
  type u16 = x: int | 0 <= x < 0x1_0000

  datatype Option<+T> = None | Some(value: T)

  /** No value occurs at two positions of `s`. */
  ghost predicate NoDup<T>(s: seq<T>) {
    forall i, j :: 0 <= i < j < |s| ==> s[i] != s[j]
  }

  /** A duplicate-free sequence over `all` is no longer than `all`, and covers it if equally long. */
  lemma {:induction false} NoDupLength<T>(s: seq<T>, all: set<T>)
    requires NoDup(s)
    requires forall i :: 0 <= i < |s| ==> s[i] in all
    ensures |s| <= |all|
    ensures |s| == |all| ==> forall x :: x in all ==> x in s
  {
    if s != [] {
      NoDupLength(s[1..], all - {s[0]});
      assert forall x :: x in s[1..] ==> x in s;
    }
  }

  function InsertAt<T>(s: seq<T>, k: nat, x: T): (r: seq<T>)
    requires k <= |s|
    ensures |r| == |s| + 1 && r[k] == x
    ensures forall i :: 0 <= i < k ==> r[i] == s[i]
    ensures forall i :: k < i < |r| ==> r[i] == s[i - 1]
  {
    s[..k] + [x] + s[k..]
  }

  function RemoveAt<T>(s: seq<T>, k: nat): (r: seq<T>)
    requires k < |s|
    ensures |r| == |s| - 1
    ensures forall i :: 0 <= i < k ==> r[i] == s[i]
    ensures forall i :: k <= i < |r| ==> r[i] == s[i + 1]
  {
    s[..k] + s[k + 1..]
  }

  lemma RemoveAtElements<T>(s: seq<T>, k: nat)
    requires k < |s| && NoDup(s)
    ensures forall y :: y in RemoveAt(s, k) <==> y != s[k] && y in s
    ensures NoDup(RemoveAt(s, k))
  {
    var r := RemoveAt(s, k);
    forall y | y != s[k] && y in s ensures y in r {
      var i :| 0 <= i < |s| && s[i] == y;
      assert r[if i < k then i else i - 1] == y;
    }
  }

  /** A duplicate-free sequence of numbers below `n` has at most `n` elements. */
  lemma {:induction false} PigeonHole(s: seq<int>, n: nat)
    requires NoDup(s) && forall i :: 0 <= i < |s| ==> 0 <= s[i] < n
    ensures |s| <= n
  {
    if n - 1 in s {
      var k :| 0 <= k < |s| && s[k] == n - 1;
      RemoveAtElements(s, k);
      PigeonHole(RemoveAt(s, k), n - 1);
    } else if s != [] {
      assert s[0] in s;
      PigeonHole(s, n - 1);
    }
  }

  lemma UpdateTwice<T>(s: seq<T>, i: nat, x: T, y: T)
    requires i < |s|
    ensures s[i := x][i := y] == s[i := y]
  {
  }
}
