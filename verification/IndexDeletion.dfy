/** Deleting several credentials by index (soft_fido2/qt/svc/credential_service.py):
    sort the indices, largest first, and delete one after the other. */
module IndexDeletion {
  import opened Bytes

  function InsertDescending(s: seq<int>, x: int): seq<int> {
    if s == [] || x >= s[0] then [x] + s else [s[0]] + InsertDescending(s[1..], x)
  }

  /** `sorted(indices, reverse=True)`. */
  function SortDescending(s: seq<int>): seq<int> {
    if s == [] then [] else InsertDescending(SortDescending(s[..|s| - 1]), s[|s| - 1])
  }

  /** `del credentials[index]` for each index in turn; IndexError past the end. */
  function DeleteEach<T>(creds: seq<T>, indices: seq<int>): Result<seq<T>> {
    if indices == [] then Success(creds)
    else if !(0 <= indices[0] < |creds|) then Raised
    else DeleteEach(creds[..indices[0]] + creds[indices[0] + 1..], indices[1..])
  }

  /** The elements at positions outside `gone`, in their order. */
  function Keeping<T>(creds: seq<T>, gone: set<int>): seq<T> {
    if creds == [] then []
    else
      var n := |creds| - 1;
      Keeping(creds[..n], gone) + if n in gone then [] else [creds[n]]
  }

  predicate AllValid(indices: seq<int>, n: nat) {
    forall i | 0 <= i < |indices| :: 0 <= indices[i] < n
  }

  predicate AllDistinct(indices: seq<int>) {
    forall i, j | 0 <= i < j < |indices| :: indices[i] != indices[j]
  }

  predicate Descending(s: seq<int>) {
    forall i, j | 0 <= i < j < |s| :: s[i] >= s[j]
  }

  function Elements(s: seq<int>): set<int> { set x | x in s }

  method DeleteByIndex<T>(credentials: seq<T>, indices: seq<int>) returns (r: Result<seq<T>>)
    requires AllValid(indices, |credentials|)
    ensures r == DeleteEach(credentials, SortDescending(indices))
    ensures AllDistinct(indices) ==> r == Success(Keeping(credentials, Elements(indices)))
  {
    DeletesExactlyIfDistinct(credentials, indices);
    var order, rest := SortDescending(indices), credentials;
    SortFacts(indices);
    for k := 0 to |order|
      invariant DeleteEach(rest, order[k..]) == DeleteEach(credentials, order)
    {
      assert order[k..][1..] == order[k + 1..];
      if order[k] < 0 || order[k] >= |rest| { return Raised; }
      rest := rest[..order[k]] + rest[order[k] + 1..];
    }
    assert order[|order|..] == [];
    r := Success(rest);
  }

  lemma {:induction false} InsertElements(s: seq<int>, x: int)
    ensures multiset(InsertDescending(s, x)) == multiset(s) + multiset{x} && |InsertDescending(s, x)| == |s| + 1
  {
    if s != [] && x < s[0] {
      InsertElements(s[1..], x);
      assert s == [s[0]] + s[1..];
    }
  }

  lemma {:induction false} InsertOrdered(s: seq<int>, x: int)
    requires Descending(s)
    ensures Descending(InsertDescending(s, x))
  {
    if s != [] && x < s[0] {
      InsertOrdered(s[1..], x);
      InsertElements(s[1..], x);
      InsertBelow(s, InsertDescending(s[1..], x), x);
    }
  }

  /** In front of what is no greater. */
  lemma InsertBelow(s: seq<int>, t: seq<int>, x: int)
    requires s != [] && x < s[0] && Descending(s) && Descending(t) && multiset(t) == multiset(s[1..]) + multiset{x}
    ensures Descending([s[0]] + t)
  {
    forall j | 0 <= j < |t|
      ensures s[0] >= t[j]
    {
      assert t[j] in multiset(t);
      assert t[j] == x || t[j] in s[1..];
    }
  }

  lemma {:induction false} SortFacts(s: seq<int>)
    ensures var t := SortDescending(s); Descending(t) && multiset(t) == multiset(s) && |t| == |s|
  {
    if s != [] {
      SortFacts(s[..|s| - 1]);
      InsertElements(SortDescending(s[..|s| - 1]), s[|s| - 1]);
      InsertOrdered(SortDescending(s[..|s| - 1]), s[|s| - 1]);
      assert s == s[..|s| - 1] + [s[|s| - 1]];
    }
  }

  lemma {:induction false} KeepingNothingBeyond<T>(creds: seq<T>, gone: set<int>, i: int)
    requires i >= |creds|
    ensures Keeping(creds, gone + {i}) == Keeping(creds, gone)
  {
    if creds != [] {
      KeepingNothingBeyond(creds[..|creds| - 1], gone, i);
    }
  }

  /** Deleting position `i` first does not disturb positions below it. */
  lemma {:induction false} KeepingAfterDelete<T>(creds: seq<T>, i: nat, gone: set<int>)
    requires i < |creds| && forall x | x in gone :: x < i
    ensures Keeping(creds[..i] + creds[i + 1..], gone) == Keeping(creds, gone + {i})
  {
    var n := |creds| - 1;
    var less := creds[..i] + creds[i + 1..];
    if i == n {
      assert less == creds[..n];
      KeepingNothingBeyond(creds[..n], gone, i);
    } else {
      KeepingAfterDelete(creds[..n], i, gone);
      assert less[..n - 1] == creds[..n][..i] + creds[..n][i + 1..];
      assert less[n - 1] == creds[n];
    }
  }

  lemma {:induction false} DeleteDescending<T>(creds: seq<T>, order: seq<int>)
    requires AllValid(order, |creds|) && Descending(order) && AllDistinct(order)
    ensures DeleteEach(creds, order) == Success(Keeping(creds, Elements(order)))
  {
    if order == [] {
      KeepingAll(creds);
      assert Elements(order) == {};
    } else {
      var i, rest := order[0], order[1..];
      RestIsBelow(order, |creds|);
      hide *;
      var less := creds[..i] + creds[i + 1..];
      DeleteDescending(less, rest);
      KeepingAfterDelete(creds, i, Elements(rest));
      DeleteFirst(creds, order);
    }
  }

  lemma DeleteFirst<T>(creds: seq<T>, order: seq<int>)
    requires order != [] && 0 <= order[0] < |creds|
    ensures DeleteEach(creds, order) == DeleteEach(creds[..order[0]] + creds[order[0] + 1..], order[1..])
  {
  }

  lemma ElementsFirst(order: seq<int>)
    requires order != []
    ensures Elements(order) == Elements(order[1..]) + {order[0]}
  {
    assert order == [order[0]] + order[1..];
  }

  lemma RestIsBelow(order: seq<int>, n: nat)
    requires order != [] && AllValid(order, n) && Descending(order) && AllDistinct(order)
    ensures 0 <= order[0] < n && AllValid(order[1..], n - 1) && Descending(order[1..]) && AllDistinct(order[1..])
    ensures forall x | x in Elements(order[1..]) :: x < order[0]
    ensures Elements(order) == Elements(order[1..]) + {order[0]}
  {
    ElementsFirst(order);
    var rest := order[1..];
    forall j | 0 <= j < |rest|
      ensures rest[j] == order[j + 1] && 0 <= rest[j] < order[0]
    {
      assert order[0] >= order[j + 1] && order[0] != order[j + 1];
    }
    assert Descending(rest) && AllDistinct(rest) && AllValid(rest, n - 1);
    hide AllValid, Descending, AllDistinct;
  }

  lemma {:induction false} KeepingAll<T>(creds: seq<T>)
    ensures Keeping(creds, {}) == creds
  {
    if creds != [] {
      KeepingAll(creds[..|creds| - 1]);
      assert creds == creds[..|creds| - 1] + [creds[|creds| - 1]];
    }
  }

  lemma {:induction false} DeleteEachLength<T>(creds: seq<T>, order: seq<int>)
    ensures var r := DeleteEach(creds, order); r.Success? ==> |r.value| == |creds| - |order|
  {
    if order != [] && 0 <= order[0] < |creds| {
      DeleteEachLength(creds[..order[0]] + creds[order[0] + 1..], order[1..]);
    }
  }

  lemma {:induction false} KeepingLength<T>(creds: seq<T>, gone: set<int>)
    requires forall x | x in gone :: 0 <= x < |creds|
    ensures |Keeping(creds, gone)| == |creds| - |gone|
  {
    if creds == [] {
      assert forall x :: x !in gone;
      assert gone == {};
    } else {
      var n := |creds| - 1;
      KeepingLength(creds[..n], gone - {n});
      if n in gone {
        KeepingNothingBeyond(creds[..n], gone - {n}, n);
        assert gone - {n} + {n} == gone;
      } else {
        assert gone - {n} == gone;
      }
    }
  }

  lemma {:induction false} RepeatsShrinkSet(s: seq<int>)
    ensures |Elements(s)| <= |s|
    ensures |Elements(s)| == |s| <==> AllDistinct(s)
  {
    if s != [] {
      var n := |s| - 1;
      RepeatsShrinkSet(s[..n]);
      assert s == s[..n] + [s[n]];
      assert Elements(s) == Elements(s[..n]) + {s[n]};
      if s[n] in s[..n] {
        assert Elements(s) == Elements(s[..n]);
      } else {
        assert s[n] !in Elements(s[..n]);
        assert forall j | 0 <= j < n :: s[..n][j] == s[j];
      }
    }
  }

  lemma SortedKeepsSet(s: seq<int>)
    ensures Elements(SortDescending(s)) == Elements(s)
    ensures AllDistinct(SortDescending(s)) <==> AllDistinct(s)
  {
    SortFacts(s);
    var t := SortDescending(s);
    forall x
      ensures x in t <==> x in s
    {
      assert x in t <==> x in multiset(t);
      assert x in s <==> x in multiset(s);
    }
    RepeatsShrinkSet(s);
    RepeatsShrinkSet(t);
  }

  /** The loop leaves exactly the credentials at the other positions, in their order, if
      and only if no index is given twice. */
  lemma DeletesExactlyIfDistinct<T>(creds: seq<T>, indices: seq<int>)
    requires AllValid(indices, |creds|)
    ensures DeleteEach(creds, SortDescending(indices)) == Success(Keeping(creds, Elements(indices)))
       <==> AllDistinct(indices)
  {
    var order := SortDescending(indices);
    SortFacts(indices);
    SortedKeepsSet(indices);
    if AllDistinct(indices) {
      assert AllValid(order, |creds|) by {
        forall i | 0 <= i < |order|
          ensures 0 <= order[i] < |creds|
        {
          assert order[i] in Elements(order);
        }
      }
      DeleteDescending(creds, order);
    } else {
      DeleteEachLength(creds, order);
      KeepingLength(creds, Elements(indices));
      RepeatsShrinkSet(indices);
    }
  }
}
