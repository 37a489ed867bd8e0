/**
 * The value-level meaning of FastMonitoringService::Encoding: a two-way table
 * between opaque handles (addresses, here any type `A` with equality) and
 * small integer codes.
 *
 *  - `quickReference` maps a handle to its code (quickReference_);
 *  - `decoder` maps a code back to a handle (decoder_);
 *  - codes 0 .. reserved-1 are handed out in call order by UpdateReserved,
 *    codes from `reserved` upward by Update;
 *  - `dummies` are the addresses of the placeholder descriptors allocated for
 *    the reserved slots (dummiesForReserved_ + i is `dummies[i]`).
 *
 * Every operation here is the exact effect of one member of the struct; the
 * class FastMonitoring.Encoding is proved against them.
 */
module EncodingModel {

  datatype Table<A> = Table(
    quickReference: map<A, nat>,
    decoder: seq<A>,
    reserved: nat,
    current: nat,
    currentReserved: nat,
    dummies: seq<A>)

  ghost predicate Distinct<A>(s: seq<A>) {
    forall i, j :: 0 <= i < j < |s| ==> s[i] != s[j]
  }

  /** The table right after construction with `res` reserved slots. */
  function Fresh<A(==)>(res: nat, dummies: seq<A>): (r: Table<A>)
    ensures VecSize(r) == 0 && r.currentReserved == 0
    ensures r.current == res && r.reserved == res
    ensures r.quickReference.Keys == {} && RoundTrips(r)
  {
    Table(map[], [], res, res, 0, dummies)
  }

  /** The code of `a`, or 0 when `a` was never registered. */
  function Encode<A(==)>(t: Table<A>, a: A): (r: nat)
    ensures a !in t.quickReference ==> r == 0
    ensures a in t.quickReference ==> r == t.quickReference[a]
    ensures RoundTrips(t) && a in t.quickReference ==> r < |t.decoder| && t.decoder[r] == a
  {
    if a in t.quickReference then t.quickReference[a] else 0
  }

  /** The handle stored under `index`; the source does no bounds check. */
  function Decode<A(==)>(t: Table<A>, index: nat): (r: A)
    requires index < |t.decoder|
    ensures r in t.decoder
    ensures RoundTrips(t) ==> forall a :: a in t.quickReference && t.quickReference[a] == index ==> r == a
  {
    t.decoder[index]
  }

  /** One past the largest code a registered handle can decode from. */
  function VecSize<A(==)>(t: Table<A>): (r: nat)
    ensures RoundTrips(t) ==> forall a :: a in t.quickReference ==> Encode(t, a) < r
  {
    |t.decoder|
  }

  /** The else branch of fillReserved indexes decoder_ with currentReserved_. */
  predicate CanFill<A(==)>(t: Table<A>, i: nat) {
    |t.decoder| <= i || t.currentReserved < |t.decoder|
  }

  /** fillReserved(a, i); its effect is stated by FillReservedEffect. */
  function FillReserved<A(==)>(t: Table<A>, a: A, i: nat): Table<A>
    requires CanFill(t, i)
  {
    t.(quickReference := t.quickReference[a := i],
       decoder := if |t.decoder| <= i then t.decoder + [a]
                  else t.decoder[t.currentReserved := a])
  }

  /** updateReserved(a): `a` takes the next reserved code; decoder_ grows by
      `a` when it holds exactly the reserved handles so far, and otherwise
      slot currentReserved_ is overwritten with `a`. */
  function UpdateReserved<A(==)>(t: Table<A>, a: A): (r: Table<A>)
    ensures Encode(r, a) == t.currentReserved
    ensures r.currentReserved == t.currentReserved + 1
    ensures r.quickReference.Keys == t.quickReference.Keys + {a}
    ensures |t.decoder| <= t.currentReserved ==> r.decoder == t.decoder + [a]
    ensures t.currentReserved < |t.decoder| ==> r.decoder == t.decoder[t.currentReserved := a]
    ensures r.reserved == t.reserved && r.current == t.current && r.dummies == t.dummies
  {
    var u := FillReserved(t, a, t.currentReserved);
    u.(currentReserved := u.currentReserved + 1)
  }

  /** The loop of completeReservedWithDummies, from index `i` on. */
  function CompleteFrom<A(==)>(t: Table<A>, i: nat): Table<A>
    requires t.currentReserved <= i && t.reserved <= |t.dummies|
    decreases t.reserved - i
  {
    if i < t.reserved then CompleteFrom(FillReserved(t, t.dummies[i], i), i + 1)
    else t
  }

  /** completeReservedWithDummies(): the counters stay, no registered handle
      is forgotten, and every dummy from slot currentReserved_ up is
      registered. */
  function CompleteReservedWithDummies<A(==)>(t: Table<A>): (r: Table<A>)
    requires t.reserved <= |t.dummies|
    ensures r.currentReserved == t.currentReserved && r.current == t.current && r.reserved == t.reserved
    ensures r.dummies == t.dummies
    ensures t.quickReference.Keys <= r.quickReference.Keys
    ensures forall k :: t.currentReserved <= k < t.reserved ==> t.dummies[k] in r.quickReference
  {
    CompleteFromKeeps(t, t.currentReserved);
    CompleteFromRegistersDummies(t, t.currentReserved);
    CompleteFrom(t, t.currentReserved)
  }

  /** update(a): `a` encodes to the old current_ and decoder_ grows by
      exactly `a`; UpdateEffect adds that every other handle keeps its code. */
  function Update<A(==)>(t: Table<A>, a: A): (r: Table<A>)
    ensures Encode(r, a) == t.current && r.current == t.current + 1
    ensures r.decoder == t.decoder + [a]
    ensures r.quickReference.Keys == t.quickReference.Keys + {a}
  {
    t.(quickReference := t.quickReference[a := t.current],
       decoder := t.decoder + [a],
       current := t.current + 1)
  }

  /** Successive updateReserved calls, in call order. */
  function UpdateReservedAll<A(==)>(t: Table<A>, hs: seq<A>): (r: Table<A>)
    ensures r.reserved == t.reserved && r.current == t.current && r.dummies == t.dummies
    ensures r.currentReserved == t.currentReserved + |hs|
    ensures t.quickReference.Keys <= r.quickReference.Keys
    decreases |hs|
  {
    if hs == [] then t else UpdateReserved(UpdateReservedAll(t, hs[..|hs| - 1]), hs[|hs| - 1])
  }

  /** Successive update calls, in call order. */
  function UpdateAll<A(==)>(t: Table<A>, ds: seq<A>): (r: Table<A>)
    ensures r.reserved == t.reserved && r.currentReserved == t.currentReserved && r.dummies == t.dummies
    ensures r.current == t.current + |ds|
    ensures t.quickReference.Keys <= r.quickReference.Keys
    decreases |ds|
  {
    if ds == [] then t else Update(UpdateAll(t, ds[..|ds| - 1]), ds[|ds| - 1])
  }

  /** Decoding the code of any registered handle gives that handle back. */
  ghost predicate RoundTrips<A>(t: Table<A>) {
    forall a :: a in t.quickReference ==>
      t.quickReference[a] < |t.decoder| && t.decoder[t.quickReference[a]] == a
  }

  // ---------------------------------------------------------------------
  // encode and update

  /** An unregistered handle encodes to 0, which is also the code that the
      first updateReserved call hands out. */
  lemma UnknownSharesCodeWithFirstReserved<A>(res: nat, dummies: seq<A>, h: A, x: A)
    requires x != h
    ensures var t := UpdateReserved(Fresh(res, dummies), h);
      && h in t.quickReference && x !in t.quickReference
      && Encode(t, h) == 0 && Encode(t, x) == 0
  {
  }

  /** update(a) leaves the reserved counters and every other handle's code
      alone, and an earlier code of `a` is overwritten rather than kept. */
  lemma UpdateEffect<A>(t: Table<A>, a: A)
    ensures var u := Update(t, a);
      && u.reserved == t.reserved && u.currentReserved == t.currentReserved
      && (forall b :: b != a ==> Encode(u, b) == Encode(t, b))
      && (a in t.quickReference && t.quickReference[a] != t.current ==>
            Encode(u, a) != t.quickReference[a])
  {
  }

  // ---------------------------------------------------------------------
  // updateReserved

  /** Successive updateReserved calls append the handles to decoder_ in call
      order and, for distinct handles, give the k-th one the code
      currentReserved_ + k; handles not passed keep their codes. */
  lemma {:induction false} ReservedCodesInCallOrder<A>(t: Table<A>, hs: seq<A>)
    requires |t.decoder| == t.currentReserved
    ensures var u := UpdateReservedAll(t, hs);
      && u.decoder == t.decoder + hs
      && u.currentReserved == t.currentReserved + |hs|
      && u.current == t.current && u.reserved == t.reserved && u.dummies == t.dummies
      && (forall a :: a in u.quickReference <==> a in t.quickReference || a in hs)
      && (forall a :: a in t.quickReference && a !in hs ==> u.quickReference[a] == t.quickReference[a])
      && (Distinct(hs) ==> forall k :: 0 <= k < |hs| ==> Encode(u, hs[k]) == t.currentReserved + k)
  {
    if hs != [] {
      var p, x := hs[..|hs| - 1], hs[|hs| - 1];
      assert hs == p + [x];
      ReservedCodesInCallOrder(t, p);
      var v := UpdateReservedAll(t, p);
      assert |v.decoder| == v.currentReserved;
      var u := UpdateReservedAll(t, hs);
      assert u == UpdateReserved(v, x);
      assert u.decoder == v.decoder + [x];
      forall a | a in t.quickReference && a !in hs
        ensures u.quickReference[a] == t.quickReference[a]
      {
        assert a !in p && a != x;
      }
      if Distinct(hs) {
        assert Distinct(p) by {
          forall i, j | 0 <= i < j < |p| ensures p[i] != p[j] {
            assert p[i] == hs[i] && p[j] == hs[j];
          }
        }
        forall k | 0 <= k < |hs| ensures Encode(u, hs[k]) == t.currentReserved + k {
          if k < |p| {
            assert hs[k] == p[k] && p[k] != x;
          }
        }
      }
    }
  }

  /** On a freshly built table, the k-th of distinct reserved handles gets
      code k and decoder_[k] is that handle. */
  lemma FreshReservedCodes<A>(res: nat, dummies: seq<A>, hs: seq<A>)
    requires Distinct(hs)
    ensures var u := UpdateReservedAll(Fresh(res, dummies), hs);
      && u.decoder == hs && u.currentReserved == |hs|
      && forall k :: 0 <= k < |hs| ==> Encode(u, hs[k]) == k && Decode(u, k) == hs[k]
  {
    ReservedCodesInCallOrder(Fresh(res, dummies), hs);
  }

  // ---------------------------------------------------------------------
  // completeReservedWithDummies

  /** fillReserved(a, i): `a` is registered with code `i` and every other
      handle keeps its code; the decoder_ slot written is its end when
      decoder_ is no longer than `i`, and slot currentReserved_ otherwise;
      the counters stay. */
  lemma FillReservedEffect<A>(t: Table<A>, a: A, i: nat)
    requires CanFill(t, i)
    ensures var r := FillReserved(t, a, i);
      && Encode(r, a) == i
      && r.quickReference.Keys == t.quickReference.Keys + {a}
      && (forall b :: b != a ==> Encode(r, b) == Encode(t, b))
      && (|t.decoder| <= i ==> r.decoder == t.decoder + [a])
      && (i < |t.decoder| ==> r.decoder == t.decoder[t.currentReserved := a])
      && r.reserved == t.reserved && r.current == t.current
      && r.currentReserved == t.currentReserved && r.dummies == t.dummies
  {
  }

  /** The loop from index `i` never changes the counters, never shortens
      decoder_, never forgets a registered handle, and does nothing once
      `i` has reached reserved_. */
  lemma {:induction false} CompleteFromKeeps<A>(t: Table<A>, i: nat)
    requires t.currentReserved <= i && t.reserved <= |t.dummies|
    ensures var r := CompleteFrom(t, i);
      && r.currentReserved == t.currentReserved && r.current == t.current
      && r.reserved == t.reserved && r.dummies == t.dummies
      && |t.decoder| <= |r.decoder|
      && t.quickReference.Keys <= r.quickReference.Keys
      && (t.reserved <= i ==> r == t)
    decreases t.reserved - i
  {
    if i < t.reserved {
      var t' := FillReserved(t, t.dummies[i], i);
      assert CompleteFrom(t, i) == CompleteFrom(t', i + 1);
      CompleteFromKeeps(t', i + 1);
    }
  }

  /** From slot `i` with decoder_ aligned, the loop appends dummies
      i .. reserved_-1 in order. */
  lemma {:induction false} CompleteFromAppends<A>(t: Table<A>, i: nat)
    requires t.currentReserved <= i <= t.reserved <= |t.dummies|
    requires |t.decoder| == i
    ensures CompleteFrom(t, i).decoder == t.decoder + t.dummies[i..t.reserved]
    decreases t.reserved - i
  {
    if i < t.reserved {
      var d := t.dummies[i];
      var t' := FillReserved(t, d, i);
      assert t'.decoder == t.decoder + [d];
      assert CompleteFrom(t, i) == CompleteFrom(t', i + 1);
      CompleteFromAppends(t', i + 1);
      AppendSlice(t.decoder, t.dummies, i, t.reserved);
    }
  }

  /** Appending element `i` of `s`, then the slice after it, appends the
      slice from `i`. */
  lemma AppendSlice<A>(p: seq<A>, s: seq<A>, i: nat, j: nat)
    requires i < j <= |s|
    ensures p + [s[i]] + s[i + 1..j] == p + s[i..j]
  {
    assert s[i..j] == [s[i]] + s[i + 1..j];
  }

  /** The loop registers exactly the dummies it visits. */
  lemma {:induction false} CompleteFromRegisters<A>(t: Table<A>, i: nat)
    requires t.currentReserved <= i <= t.reserved <= |t.dummies|
    ensures forall a :: a in CompleteFrom(t, i).quickReference <==>
      a in t.quickReference || a in t.dummies[i..t.reserved]
    decreases t.reserved - i
  {
    if i < t.reserved {
      var d := t.dummies[i];
      var t' := FillReserved(t, d, i);
      assert CompleteFrom(t, i) == CompleteFrom(t', i + 1);
      CompleteFromRegisters(t', i + 1);
      assert t.dummies[i..t.reserved] == [d] + t.dummies[i + 1..t.reserved];
    }
  }

  /** Every dummy from slot `i` up is registered once the loop is done. */
  lemma {:induction false} CompleteFromRegistersDummies<A>(t: Table<A>, i: nat)
    requires t.currentReserved <= i && t.reserved <= |t.dummies|
    ensures forall k :: i <= k < t.reserved ==> t.dummies[k] in CompleteFrom(t, i).quickReference
    decreases t.reserved - i
  {
    if i < t.reserved {
      var t' := FillReserved(t, t.dummies[i], i);
      assert CompleteFrom(t, i) == CompleteFrom(t', i + 1);
      CompleteFromRegistersDummies(t', i + 1);
      CompleteFromKeeps(t', i + 1);
    }
  }

  /** A handle the loop does not visit keeps its code. */
  lemma {:induction false} CompleteFromKeepsCode<A>(t: Table<A>, i: nat, a: A)
    requires t.currentReserved <= i <= t.reserved <= |t.dummies|
    requires a in t.quickReference && a !in t.dummies[i..t.reserved]
    ensures a in CompleteFrom(t, i).quickReference
    ensures CompleteFrom(t, i).quickReference[a] == t.quickReference[a]
    decreases t.reserved - i
  {
    if i < t.reserved {
      var d := t.dummies[i];
      var t' := FillReserved(t, d, i);
      assert CompleteFrom(t, i) == CompleteFrom(t', i + 1);
      assert t.dummies[i..t.reserved] == [d] + t.dummies[i + 1..t.reserved];
      assert a != d && a in t'.quickReference && t'.quickReference[a] == t.quickReference[a];
      CompleteFromKeepsCode(t', i + 1, a);
    }
  }

  /** With distinct dummies, the loop gives dummy k the code k. */
  lemma {:induction false} CompleteFromDummyCode<A>(t: Table<A>, i: nat, k: nat)
    requires t.currentReserved <= i <= k < t.reserved <= |t.dummies|
    requires Distinct(t.dummies)
    ensures Encode(CompleteFrom(t, i), t.dummies[k]) == k
    decreases t.reserved - i
  {
    var d := t.dummies[i];
    var t' := FillReserved(t, d, i);
    assert CompleteFrom(t, i) == CompleteFrom(t', i + 1);
    if k == i {
      assert d !in t.dummies[i + 1..t.reserved] by {
        forall j | i + 1 <= j < t.reserved ensures t.dummies[j] != d { }
      }
      assert d in t'.quickReference && t'.quickReference[d] == i;
      CompleteFromKeepsCode(t', i + 1, d);
    } else {
      CompleteFromDummyCode(t', i + 1, k);
    }
  }

  /** From slot `i` with decoder_ aligned, the loop appends dummies
      i .. reserved_-1, registers exactly them, keeps every other code, and
      gives distinct dummy k the code k. */
  lemma CompleteFromFills<A>(t: Table<A>, i: nat)
    requires t.currentReserved <= i <= t.reserved <= |t.dummies|
    requires |t.decoder| == i
    ensures var u := CompleteFrom(t, i);
      && u.decoder == t.decoder + t.dummies[i..t.reserved]
      && (forall a :: a in u.quickReference <==> a in t.quickReference || a in t.dummies[i..t.reserved])
      && (forall a :: a in t.quickReference && a !in t.dummies[i..t.reserved] ==>
            u.quickReference[a] == t.quickReference[a])
      && (Distinct(t.dummies) ==> forall k :: i <= k < t.reserved ==> Encode(u, t.dummies[k]) == k)
  {
    CompleteFromAppends(t, i);
    CompleteFromRegisters(t, i);
    forall a | a in t.quickReference && a !in t.dummies[i..t.reserved]
      ensures CompleteFrom(t, i).quickReference[a] == t.quickReference[a]
    {
      CompleteFromKeepsCode(t, i, a);
    }
    if Distinct(t.dummies) {
      forall k | i <= k < t.reserved ensures Encode(CompleteFrom(t, i), t.dummies[k]) == k {
        CompleteFromDummyCode(t, i, k);
      }
    }
  }

  /** When decoder_ holds exactly the currentReserved_ handles registered so
      far, completeReservedWithDummies gives every free reserved slot i its
      own dummy, with code i, and leaves vecsize() == reserved_. */
  lemma CompleteReservedFills<A>(t: Table<A>)
    requires |t.decoder| == t.currentReserved <= t.reserved == |t.dummies|
    requires Distinct(t.dummies)
    ensures var u := CompleteReservedWithDummies(t);
      && u.currentReserved == t.currentReserved
      && VecSize(u) == t.reserved
      && u.decoder[..t.currentReserved] == t.decoder
      && forall i :: t.currentReserved <= i < t.reserved ==>
           u.decoder[i] == t.dummies[i] && Encode(u, t.dummies[i]) == i
  {
    CompleteFromFills(t, t.currentReserved);
  }

  /** Off protocol, the `decoder_[currentReserved_]` write of the else branch
      shows: with three reserved slots and two dynamic handles registered
      first, every dummy except the last lands in slot 0, so dummy 0 no
      longer decodes to itself. */
  lemma CompleteAfterUpdatesMisplacesDummies<A>(d0: A, d1: A, d2: A, x: A, y: A)
    requires d0 != d1 && d0 != d2
    ensures var t := CompleteReservedWithDummies(UpdateAll(Fresh(3, [d0, d1, d2]), [x, y]));
      && t.decoder == [d1, y, d2]
      && Encode(t, d0) == 0 && Decode(t, Encode(t, d0)) == d1
  {
    var f := Fresh(3, [d0, d1, d2]);
    var s := UpdateAll(f, [x, y]);
    assert s.decoder == [x, y] && s.currentReserved == 0 && s.reserved == 3 && s.dummies == [d0, d1, d2] by {
      assert [x, y][..1] == [x];
      assert UpdateAll(f, [x]) == Update(f, x);
    }
    var u := CompleteFrom(s, 0);
    assert u.decoder == [d1, y, d2] && d0 in u.quickReference && u.quickReference[d0] == 0 by {
      var s1 := FillReserved(s, d0, 0);
      assert s1.decoder == [d0, y];
      var s2 := FillReserved(s1, d1, 1);
      assert s2.decoder == [d1, y];
      var s3 := FillReserved(s2, d2, 2);
      assert s3.decoder == [d1, y, d2];
      assert CompleteFrom(s2, 2) == CompleteFrom(s3, 3) == s3;
      assert CompleteFrom(s, 0) == CompleteFrom(s1, 1) == CompleteFrom(s2, 2);
    }
    assert CompleteReservedWithDummies(s) == u;
  }

  /** updateReserved once decoder_ already reaches slot currentReserved_ (as
      after completeReservedWithDummies): the write of the else branch lands
      on slot currentReserved_ itself, so `a` round-trips, and so does every
      other handle except one that held that same code, which now decodes
      to `a`. */
  lemma UpdateReservedOverFilledSlot<A>(t: Table<A>, a: A)
    requires RoundTrips(t) && t.currentReserved < |t.decoder|
    ensures var u := UpdateReserved(t, a);
      && u.decoder == t.decoder[t.currentReserved := a]
      && Decode(u, Encode(u, a)) == a
      && (forall b :: b in t.quickReference && b != a && t.quickReference[b] != t.currentReserved ==>
            Encode(u, b) < |u.decoder| && Decode(u, Encode(u, b)) == b)
      && (forall d :: d in t.quickReference && d != a && t.quickReference[d] == t.currentReserved ==>
            Encode(u, d) == t.currentReserved && Decode(u, Encode(u, d)) == a)
  {
  }

  /** The order the service uses: completeReservedWithDummies, then
      updateReserved. With two reserved slots, the handle replaces dummy 0
      in slot 0, and dummy 0, still registered under code 0, decodes to it. */
  lemma ReservedAfterCompletionReplacesDummy<A>(d0: A, d1: A, h: A)
    requires d0 != d1 && h != d0 && h != d1
    ensures var u := UpdateReserved(CompleteReservedWithDummies(Fresh(2, [d0, d1])), h);
      && u.decoder == [h, d1]
      && Encode(u, h) == 0 && Encode(u, d1) == 1
      && Encode(u, d0) == 0 && Decode(u, Encode(u, d0)) == h
  {
    var f := Fresh(2, [d0, d1]);
    var f1 := FillReserved(f, d0, 0);
    var f2 := FillReserved(f1, d1, 1);
    assert f2.decoder == [d0, d1];
    assert CompleteFrom(f, 0) == CompleteFrom(f1, 1) == CompleteFrom(f2, 2) == f2;
  }

  /** A second completeReservedWithDummies finds decoder_ already full, so
      each of its writes goes to slot currentReserved_ (0): three reserved
      slots turn [d0, d1, d2] into [d2, d1, d2]. */
  lemma SecondCompletionRewritesSlot<A>(d0: A, d1: A, d2: A)
    requires d0 != d1 && d0 != d2 && d1 != d2
    ensures var t := CompleteReservedWithDummies(CompleteReservedWithDummies(Fresh(3, [d0, d1, d2])));
      && t.decoder == [d2, d1, d2]
      && Encode(t, d0) == 0 && Decode(t, Encode(t, d0)) == d2
  {
    var f := Fresh(3, [d0, d1, d2]);
    var f1 := FillReserved(f, d0, 0);
    var f2 := FillReserved(f1, d1, 1);
    var f3 := FillReserved(f2, d2, 2);
    assert f3.decoder == [d0, d1, d2];
    assert CompleteFrom(f, 0) == CompleteFrom(f1, 1) == CompleteFrom(f2, 2) == CompleteFrom(f3, 3) == f3;
    var g1 := FillReserved(f3, d0, 0);
    assert g1.decoder == [d0, d1, d2];
    var g2 := FillReserved(g1, d1, 1);
    assert g2.decoder == [d1, d1, d2];
    var g3 := FillReserved(g2, d2, 2);
    assert g3.decoder == [d2, d1, d2];
    assert CompleteFrom(f3, 0) == CompleteFrom(g1, 1) == CompleteFrom(g2, 2) == CompleteFrom(g3, 3) == g3;
  }

  // ---------------------------------------------------------------------
  // Round trip

  lemma UpdateReservedKeepsRoundTrip<A>(t: Table<A>, a: A)
    requires RoundTrips(t) && |t.decoder| == t.currentReserved
    ensures RoundTrips(UpdateReserved(t, a))
    ensures |UpdateReserved(t, a).decoder| == UpdateReserved(t, a).currentReserved
  {
  }

  lemma UpdateKeepsRoundTrip<A>(t: Table<A>, a: A)
    requires RoundTrips(t) && |t.decoder| == t.current
    ensures RoundTrips(Update(t, a))
    ensures |Update(t, a).decoder| == Update(t, a).current
  {
  }

  lemma {:induction false} UpdateReservedAllKeepsRoundTrip<A>(t: Table<A>, hs: seq<A>)
    requires RoundTrips(t) && |t.decoder| == t.currentReserved
    ensures var u := UpdateReservedAll(t, hs);
      RoundTrips(u) && |u.decoder| == u.currentReserved
    decreases |hs|
  {
    if hs != [] {
      UpdateReservedAllKeepsRoundTrip(t, hs[..|hs| - 1]);
      UpdateReservedKeepsRoundTrip(UpdateReservedAll(t, hs[..|hs| - 1]), hs[|hs| - 1]);
    }
  }

  lemma {:induction false} UpdateAllKeepsRoundTrip<A>(t: Table<A>, ds: seq<A>)
    requires RoundTrips(t) && |t.decoder| == t.current
    ensures var u := UpdateAll(t, ds);
      RoundTrips(u) && |u.decoder| == u.current
    decreases |ds|
  {
    if ds != [] {
      UpdateAllKeepsRoundTrip(t, ds[..|ds| - 1]);
      UpdateKeepsRoundTrip(UpdateAll(t, ds[..|ds| - 1]), ds[|ds| - 1]);
    }
  }

  lemma {:induction false} CompleteFromKeepsRoundTrip<A>(t: Table<A>, i: nat)
    requires t.currentReserved <= i <= t.reserved <= |t.dummies|
    requires RoundTrips(t) && |t.decoder| == i
    ensures var u := CompleteFrom(t, i);
      RoundTrips(u) && |u.decoder| == t.reserved
    decreases t.reserved - i
  {
    if i < t.reserved {
      var t' := FillReserved(t, t.dummies[i], i);
      assert RoundTrips(t');
      CompleteFromKeepsRoundTrip(t', i + 1);
    }
  }

  /** Successive update calls give distinct handles the codes current_,
      current_ + 1, ... in call order. */
  lemma {:induction false} DynamicCodesInCallOrder<A>(t: Table<A>, ds: seq<A>)
    ensures var u := UpdateAll(t, ds);
      && u.decoder == t.decoder + ds
      && u.current == t.current + |ds|
      && (forall a :: a in t.quickReference && a !in ds ==> u.quickReference[a] == t.quickReference[a])
      && (Distinct(ds) ==> forall k :: 0 <= k < |ds| ==> Encode(u, ds[k]) == t.current + k)
    decreases |ds|
  {
    if ds != [] {
      var p, x := ds[..|ds| - 1], ds[|ds| - 1];
      assert ds == p + [x];
      DynamicCodesInCallOrder(t, p);
      var u := UpdateAll(t, ds);
      forall a | a in t.quickReference && a !in ds
        ensures u.quickReference[a] == t.quickReference[a]
      {
        assert a !in p && a != x;
      }
      if Distinct(ds) {
        assert Distinct(p);
        forall k | 0 <= k < |ds| ensures Encode(u, ds[k]) == t.current + k {
          if k < |p| {
            assert ds[k] == p[k] && p[k] != x;
          }
        }
      }
    }
  }

  /** The setup protocol: on a fresh table with `res` slots, register at most
      `res` reserved handles, fill the rest with dummies, then register the
      dynamic handles. Afterwards decode(encode(a)) == a for every registered
      handle, and the dynamic handles have codes res, res + 1, ... */
  lemma ProtocolRoundTrip<A>(res: nat, dummies: seq<A>, hs: seq<A>, ds: seq<A>)
    requires |dummies| == res && |hs| <= res
    ensures var t := UpdateAll(CompleteReservedWithDummies(UpdateReservedAll(Fresh(res, dummies), hs)), ds);
      && |t.decoder| == t.current == res + |ds|
      && (forall a :: a in t.quickReference ==>
            Encode(t, a) < |t.decoder| && Decode(t, Encode(t, a)) == a)
      && (Distinct(ds) ==> forall k :: 0 <= k < |ds| ==> Encode(t, ds[k]) == res + k)
  {
    var f := Fresh(res, dummies);
    var r := UpdateReservedAll(f, hs);
    ReservedCodesInCallOrder(f, hs);
    UpdateReservedAllKeepsRoundTrip(f, hs);
    var c := CompleteReservedWithDummies(r);
    CompleteFromKeepsRoundTrip(r, r.currentReserved);
    UpdateAllKeepsRoundTrip(c, ds);
    DynamicCodesInCallOrder(c, ds);
  }

  /** Two reserved handles registered at setup and three dynamic ones later:
      the reserved ones get codes 0 and 1, the dynamic ones 2, 3 and 4. */
  lemma TwoReservedThreeDynamic<A>(dummies: seq<A>, h1: A, h2: A, x: A, y: A, z: A)
    requires |dummies| == 2
    requires h1 != h2 && x != y && x != z && y != z
    requires h1 !in [x, y, z] && h2 !in [x, y, z]
    ensures var t := UpdateAll(CompleteReservedWithDummies(UpdateReservedAll(Fresh(2, dummies), [h1, h2])), [x, y, z]);
      && Encode(t, h1) == 0 && Encode(t, h2) == 1
      && Encode(t, x) == 2 && Encode(t, y) == 3 && Encode(t, z) == 4
      && t.decoder == [h1, h2, x, y, z]
  {
    var c := CompleteReservedWithDummies(UpdateReservedAll(Fresh(2, dummies), [h1, h2]));
    TwoReservedSetup(dummies, h1, h2);
    var ds := [x, y, z];
    assert Distinct(ds) && h1 !in ds && h2 !in ds;
    DynamicCodesInCallOrder(c, ds);
    var t := UpdateAll(c, ds);
    assert Encode(t, ds[0]) == 2 && Encode(t, ds[1]) == 3 && Encode(t, ds[2]) == 4;
  }

  /** The setup half of the scenario above: the reserved handles have codes
      0 and 1 and completion has nothing left to fill. */
  lemma TwoReservedSetup<A>(dummies: seq<A>, h1: A, h2: A)
    requires |dummies| == 2 && h1 != h2
    ensures var c := CompleteReservedWithDummies(UpdateReservedAll(Fresh(2, dummies), [h1, h2]));
      && c.decoder == [h1, h2] && c.current == 2
      && Encode(c, h1) == 0 && Encode(c, h2) == 1
  {
    var f := Fresh(2, dummies);
    var hs := [h1, h2];
    var r := UpdateReservedAll(f, hs);
    assert Distinct(hs);
    ReservedCodesInCallOrder(f, hs);
    assert Encode(r, hs[0]) == 0 && Encode(r, hs[1]) == 1;
    assert CompleteReservedWithDummies(r) == r by {
      assert r.currentReserved == r.reserved == 2;
    }
  }

  /** A call made on the table: updateReserved(handle) or update(handle). */
  datatype Call<A> = Reserve(handle: A) | Register(handle: A)

  /** One call. */
  function Step<A(==)>(t: Table<A>, c: Call<A>): (r: Table<A>)
    ensures r.reserved == t.reserved && r.dummies == t.dummies
  {
    match c
    case Reserve(h) => UpdateReserved(t, h)
    case Register(h) => Update(t, h)
  }

  /** The calls in order. */
  function ApplyCalls<A(==)>(t: Table<A>, calls: seq<Call<A>>): Table<A>
    decreases |calls|
  {
    if calls == [] then t else ApplyCalls(Step(t, calls[0]), calls[1..])
  }

  /** How many of the calls are updateReserved calls. */
  function ReserveCount<A>(calls: seq<Call<A>>): nat {
    if calls == [] then 0 else (if calls[0].Reserve? then 1 else 0) + ReserveCount(calls[1..])
  }

  /** The table once completeReservedWithDummies has run: every reserved
      slot not yet taken by updateReserved still holds its own dummy,
      decoder_ is as long as current_, and every registered handle that is
      not a dummy decodes back to itself. */
  ghost predicate PostComplete<A>(t: Table<A>) {
    && t.reserved <= |t.dummies|
    && t.currentReserved <= t.reserved <= |t.decoder| == t.current
    && (forall j :: t.currentReserved <= j < t.reserved ==> t.decoder[j] == t.dummies[j])
    && (forall a :: a in t.quickReference && a !in t.dummies ==>
          t.quickReference[a] < |t.decoder| && t.decoder[t.quickReference[a]] == a)
  }

  /** Reserved handles first (at most `res`), then completion: the table is
      in the post-completion state. With no reserved handle this is the
      order of the call left commented out in the constructor. */
  lemma CompletionEstablishesPostComplete<A>(res: nat, dummies: seq<A>, hs: seq<A>)
    requires |dummies| == res && |hs| <= res
    ensures PostComplete(CompleteReservedWithDummies(UpdateReservedAll(Fresh(res, dummies), hs)))
  {
    var f := Fresh(res, dummies);
    ReservedCodesInCallOrder(f, hs);
    UpdateReservedAllKeepsRoundTrip(f, hs);
    AlignedCompletionEstablishesPostComplete(UpdateReservedAll(f, hs));
  }

  /** Completing a table whose decoder holds exactly the reserved handles
      so far, all of which round-trip, gives the post-completion state. */
  lemma AlignedCompletionEstablishesPostComplete<A>(t: Table<A>)
    requires RoundTrips(t) && |t.decoder| == t.currentReserved
    requires t.currentReserved <= t.reserved == t.current == |t.dummies|
    ensures PostComplete(CompleteReservedWithDummies(t))
  {
    var i := t.currentReserved;
    var u := CompleteFrom(t, i);
    CompleteFromKeepsRoundTrip(t, i);
    CompleteFromAppends(t, i);
    CompleteFromKeeps(t, i);
    TailIsDummies(u.decoder, t.decoder, t.dummies, t.reserved);
    RoundTripsGivePostComplete(u);
  }

  /** Slots past the reserved handles of `hs + dummies[|hs|..n]` hold the
      dummies at their own positions. */
  lemma TailIsDummies<A>(d: seq<A>, hs: seq<A>, dummies: seq<A>, n: nat)
    requires |hs| <= n <= |dummies| && d == hs + dummies[|hs|..n]
    ensures forall j :: |hs| <= j < n ==> d[j] == dummies[j]
  {
    forall j | |hs| <= j < n ensures d[j] == dummies[j] {
      assert d[j] == dummies[|hs|..n][j - |hs|];
    }
  }

  /** A table whose every handle round-trips and whose unfilled reserved
      slots hold their dummies satisfies the post-completion invariant. */
  lemma RoundTripsGivePostComplete<A>(t: Table<A>)
    requires RoundTrips(t)
    requires t.reserved <= |t.dummies|
    requires t.currentReserved <= t.reserved <= |t.decoder| == t.current
    requires forall j :: t.currentReserved <= j < t.reserved ==> t.decoder[j] == t.dummies[j]
    ensures PostComplete(t)
  {
  }

  /** updateReserved of a handle that is not a dummy, while a reserved slot
      is left, keeps the post-completion state: the slot it overwrites held
      a dummy, so no other real handle loses its round trip. */
  lemma UpdateReservedKeepsPostComplete<A>(t: Table<A>, h: A)
    requires PostComplete(t) && t.currentReserved < t.reserved && h !in t.dummies
    ensures PostComplete(UpdateReserved(t, h))
  {
    var u := UpdateReserved(t, h);
    var cr := t.currentReserved;
    assert t.decoder[cr] == t.dummies[cr];
    forall a | a in u.quickReference && a !in u.dummies
      ensures u.quickReference[a] < |u.decoder| && u.decoder[u.quickReference[a]] == a
    {
      if a != h {
        assert t.decoder[t.quickReference[a]] == a;
        assert t.quickReference[a] != cr;
      }
    }
  }

  /** update of a handle that is not a dummy keeps the post-completion
      state. */
  lemma UpdateKeepsPostComplete<A>(t: Table<A>, h: A)
    requires PostComplete(t) && h !in t.dummies
    ensures PostComplete(Update(t, h))
  {
  }

  /** Any mix of updateReserved and update calls on handles that are not
      dummies, with no more updateReserved calls than free reserved slots,
      keeps the post-completion state. */
  lemma {:induction false} CallsKeepPostComplete<A>(t: Table<A>, calls: seq<Call<A>>)
    requires PostComplete(t)
    requires t.currentReserved + ReserveCount(calls) <= t.reserved
    requires forall k :: 0 <= k < |calls| ==> calls[k].handle !in t.dummies
    ensures PostComplete(ApplyCalls(t, calls))
    decreases |calls|
  {
    if calls != [] {
      var t' := Step(t, calls[0]);
      match calls[0] {
        case Reserve(h) => UpdateReservedKeepsPostComplete(t, h);
        case Register(h) => UpdateKeepsPostComplete(t, h);
      }
      assert t'.currentReserved + ReserveCount(calls[1..]) <= t'.reserved;
      forall k | 0 <= k < |calls[1..]| ensures calls[1..][k].handle !in t'.dummies {
        assert calls[1..][k] == calls[k + 1];
      }
      CallsKeepPostComplete(t', calls[1..]);
    }
  }

  /** Reserved handles, completion, then any mix of updateReserved and
      update calls (updateReserved at most as often as slots are left):
      every registered handle that is not a dummy round-trips, and
      vecsize() == current_. */
  lemma PostCompleteRoundTrip<A>(res: nat, dummies: seq<A>, hs: seq<A>, calls: seq<Call<A>>)
    requires |dummies| == res && |hs| + ReserveCount(calls) <= res
    requires forall k :: 0 <= k < |calls| ==> calls[k].handle !in dummies
    ensures var t := ApplyCalls(CompleteReservedWithDummies(UpdateReservedAll(Fresh(res, dummies), hs)), calls);
      && VecSize(t) == t.current
      && forall a :: a in t.quickReference && a !in dummies ==>
           Encode(t, a) < |t.decoder| && Decode(t, Encode(t, a)) == a
  {
    CompletionEstablishesPostComplete(res, dummies, hs);
    var c := CompleteReservedWithDummies(UpdateReservedAll(Fresh(res, dummies), hs));
    CallsKeepPostComplete(c, calls);
    ApplyCallsKeepsDummies(c, calls);
  }

  /** No call changes the dummies. */
  lemma {:induction false} ApplyCallsKeepsDummies<A>(t: Table<A>, calls: seq<Call<A>>)
    ensures ApplyCalls(t, calls).dummies == t.dummies
    decreases |calls|
  {
    if calls != [] {
      ApplyCallsKeepsDummies(Step(t, calls[0]), calls[1..]);
    }
  }
}
