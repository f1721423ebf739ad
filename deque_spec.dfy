/// The abstract meaning of the list operations, stated on the sequence of
/// elements from front to back.
module DequeSpec {
  import opened Wrappers

  /// The position of the first element, scanning front to back, that the
  /// predicate accepts; `None` when it accepts none.
  function FirstIndex<T>(s: seq<T>, p: T -> bool): (r: Option<nat>)
    ensures r.Some? ==> r.value < |s| && p(s[r.value])
    ensures r.Some? ==> forall j | 0 <= j < r.value :: !p(s[j])
    ensures r.None? <==> forall j | 0 <= j < |s| :: !p(s[j])
  {
    if s == [] then None
    else if p(s[0]) then Some(0)
    else
      match FirstIndex(s[1..], p)
      case None => None
      case Some(i) => Some(i + 1)
  }

  /// `s` with the element at position `i` taken out; the others keep their order.
  function RemoveAt<T>(s: seq<T>, i: nat): (r: seq<T>)
    requires i < |s|
    ensures |r| == |s| - 1
    ensures forall j | 0 <= j < i :: r[j] == s[j]
    ensures forall j | i <= j < |r| :: r[j] == s[j + 1]
    ensures multiset(r) + multiset{s[i]} == multiset(s)
  {
    assert s == s[..i] + [s[i]] + s[i + 1..];
    s[..i] + s[i + 1..]
  }

  /// What removing the first element accepted by `p` returns, and what it leaves.
  function RemoveFirstMatch<T>(s: seq<T>, p: T -> bool): (Option<T>, seq<T>)
  {
    match FirstIndex(s, p)
    case None => (None, s)
    case Some(i) => (Some(s[i]), RemoveAt(s, i))
  }

  /// `s` back to front.
  function Reversed<T>(s: seq<T>): (r: seq<T>)
    ensures |r| == |s|
    ensures forall i | 0 <= i < |s| :: r[i] == s[|s| - 1 - i]
  {
    if s == [] then [] else Reversed(s[1..]) + [s[0]]
  }

  /// A match at `k` with none before it is the first match.
  lemma FirstIndexIs<T>(s: seq<T>, p: T -> bool, k: nat)
    requires k < |s| && p(s[k])
    requires forall j | 0 <= j < k :: !p(s[j])
    ensures FirstIndex(s, p) == Some(k)
  {
  }

  /// Removing the first match is characterised without reference to indices:
  /// when `s` splits as `a + [e] + b` with `e` accepted and nothing in `a`
  /// accepted, the removal returns `e` and leaves `a + b`.
  lemma RemoveFirstMatchSplit<T>(a: seq<T>, e: T, b: seq<T>, p: T -> bool)
    requires p(e)
    requires forall j | 0 <= j < |a| :: !p(a[j])
    ensures RemoveFirstMatch(a + [e] + b, p) == (Some(e), a + b)
  {
    var s := a + [e] + b;
    assert s[|a|] == e;
    assert forall j | 0 <= j < |a| :: s[j] == a[j];
    FirstIndexIs(s, p, |a|);
    var r := RemoveAt(s, |a|);
    assert |r| == |a + b|;
    forall j | 0 <= j < |r| ensures r[j] == (a + b)[j] {
      if j < |a| {
        assert r[j] == s[j];
      } else {
        assert r[j] == s[j + 1];
      }
    }
    assert r == a + b;
  }

  /// Conversely, whatever the removal returns has that shape: it finds the
  /// element `e` it returns behind a prefix with no match, and leaves the
  /// rest in order; when it finds nothing the sequence is unchanged and no
  /// element is accepted.
  lemma RemoveFirstMatchShape<T>(s: seq<T>, p: T -> bool)
    ensures RemoveFirstMatch(s, p).0.None? <==> forall x | x in s :: !p(x)
    ensures RemoveFirstMatch(s, p).0.None? ==> RemoveFirstMatch(s, p).1 == s
    ensures RemoveFirstMatch(s, p).0.Some? ==>
              var e, rest := RemoveFirstMatch(s, p).0.value, RemoveFirstMatch(s, p).1;
              p(e) &&
              exists k | 0 <= k <= |rest| ::
                s == rest[..k] + [e] + rest[k..] && forall x | x in rest[..k] :: !p(x)
  {
    match FirstIndex(s, p)
    case None =>
      assert forall x | x in s :: !p(x) by {
        forall x | x in s ensures !p(x) {
          var j :| 0 <= j < |s| && s[j] == x;
        }
      }
    case Some(i) =>
      assert s[i] in s;
      var rest := RemoveAt(s, i);
      assert rest[..i] == s[..i];
      assert rest[i..] == s[i + 1..];
      assert s == rest[..i] + [s[i]] + rest[i..];
      assert forall x | x in rest[..i] :: !p(x) by {
        forall x | x in rest[..i] ensures !p(x) {
          var j :| 0 <= j < i && rest[..i][j] == x;
          assert s[j] == x;
        }
      }
  }

  /// Removing the first match takes out exactly one occurrence of what it
  /// returns and nothing else.
  lemma RemoveFirstMatchPermutation<T>(s: seq<T>, p: T -> bool)
    ensures var (res, rest) := RemoveFirstMatch(s, p);
            match res
            case None => multiset(rest) == multiset(s)
            case Some(e) => multiset(rest) + multiset{e} == multiset(s) && |rest| + 1 == |s|
  {
  }

  /// A predicate that accepts everything removes the front element, which is
  /// what a NULL comparator asks for.
  lemma RemoveFirstMatchAcceptAll<T>(s: seq<T>)
    ensures RemoveFirstMatch(s, x => true) ==
              if s == [] then (None, s) else (Some(s[0]), s[1..])
  {
    if s != [] {
      FirstIndexIs(s, x => true, 0);
      assert RemoveAt(s, 0) == s[1..];
    }
  }
}
