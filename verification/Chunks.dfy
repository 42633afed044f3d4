/** Chunk lists of src/core/crypto/streamingCrypto.service.ts: bytes queued as the pieces they arrived in. */
module Chunks {
  type byte = x: int | 0 <= x < 256
  type bytes = seq<byte>

  // All queued bytes.
  function Flat(ps: seq<bytes>): bytes {
    if ps == [] then [] else ps[0] + Flat(ps[1..])
  }

  lemma {:induction false} FlatAppend(a: seq<bytes>, b: seq<bytes>)
    ensures Flat(a + b) == Flat(a) + Flat(b)
  {
    if a == [] {
      assert a + b == b;
    } else {
      FlatAppend(a[1..], b);
      var rest := Flat(a[1..]);
      assert (a + b)[1..] == a[1..] + b && (a + b)[0] == a[0];
      assert Flat(a + b) == a[0] + (rest + Flat(b));
      hide Flat;
      assert a[0] + (rest + Flat(b)) == (a[0] + rest) + Flat(b);
    }
  }

  lemma FlatPush(ps: seq<bytes>, p: bytes)
    ensures Flat(ps + [p]) == Flat(ps) + p
  {
    FlatAppend(ps, [p]);
    assert Flat([p]) == p + Flat([]);
  }

  // The list left after k bytes are taken off its front; emptied pieces go, later empty ones stay.
  function Drained(ps: seq<bytes>, k: nat): (rest: seq<bytes>)
    requires k <= |Flat(ps)|
    decreases |ps|
  {
    if k == 0 then ps
    else if |ps[0]| <= k then Drained(ps[1..], k - |ps[0]|)
    else [ps[0][k..]] + ps[1..]
  }

  lemma {:induction false} FlatDrained(ps: seq<bytes>, k: nat)
    requires k <= |Flat(ps)|
    ensures Flat(Drained(ps, k)) == Flat(ps)[k..]
    decreases |ps|
  {
    if k > 0 {
      assert Flat(ps) == ps[0] + Flat(ps[1..]);
      if |ps[0]| <= k {
        FlatDrained(ps[1..], k - |ps[0]|);
      } else {
        var rest := [ps[0][k..]] + ps[1..];
        assert rest[0] == ps[0][k..] && rest[1..] == ps[1..];
      }
    }
  }

  lemma {:induction false} DrainedAppend(a: seq<bytes>, b: seq<bytes>, k: nat)
    requires k <= |Flat(a)|
    ensures k <= |Flat(a + b)| && Drained(a + b, k) == Drained(a, k) + b
    decreases |a|
  {
    FlatAppend(a, b);
    if k > 0 {
      assert (a + b)[1..] == a[1..] + b && (a + b)[0] == a[0];
      assert |Flat(a)| == |a[0]| + |Flat(a[1..])|;
      hide Flat;
      if |a[0]| <= k {
        DrainedAppend(a[1..], b, k - |a[0]|);
      } else {
        assert [a[0][k..]] + (a[1..] + b) == ([a[0][k..]] + a[1..]) + b;
      }
    }
  }

  lemma {:induction false} DrainedTwice(ps: seq<bytes>, j: nat, k: nat)
    requires j + k <= |Flat(ps)|
    ensures k <= |Flat(Drained(ps, j))|
    ensures Drained(Drained(ps, j), k) == Drained(ps, j + k)
    decreases |ps|
  {
    FlatDrained(ps, j);
    if j > 0 && k > 0 {
      assert Flat(ps) == ps[0] + Flat(ps[1..]);
      if |ps[0]| <= j {
        DrainedTwice(ps[1..], j - |ps[0]|, k);
      } else {
        var rest := [ps[0][j..]] + ps[1..];
        assert rest[0] == ps[0][j..] && rest[1..] == ps[1..];
        if j + k < |ps[0]| {
          assert ps[0][j..][k..] == ps[0][j + k..];
        }
      }
    }
  }

  // Taking bytes that end in the last piece leaves at most the rest of that piece.
  lemma {:induction false} DrainedIntoLast(ps: seq<bytes>, p: bytes, k: nat)
    requires |Flat(ps)| < k <= |Flat(ps)| + |p|
    ensures k <= |Flat(ps + [p])|
    ensures Drained(ps + [p], k) == if k == |Flat(ps)| + |p| then [] else [p[k - |Flat(ps)|..]]
    decreases |ps|
  {
    FlatPush(ps, p);
    if ps == [] {
      assert ps + [p] == [p];
      assert [p][1..] == [];
    } else {
      assert (ps + [p])[1..] == ps[1..] + [p] && (ps + [p])[0] == ps[0];
      FlatPush(ps[1..], p);
      DrainedIntoLast(ps[1..], p, k - |ps[0]|);
    }
  }

  lemma FlatSingle(p: bytes)
    ensures Flat([p]) == p
  {
    assert [p][1..] == [];
  }

  lemma DrainedTail(ps: seq<bytes>, k: nat)
    requires ps != [] && |Flat(ps[..|ps| - 1])| < k <= |Flat(ps)|
    ensures |Drained(ps, k)| <= 1 && (Flat(Drained(ps, k)) == [] ==> Drained(ps, k) == [])
  {
    hide Drained, Flat;
    var init, last := ps[..|ps| - 1], ps[|ps| - 1];
    assert init + [last] == ps;
    FlatPush(init, last);
    DrainedIntoLast(init, last, k);
    FlatSingle(last[k - |Flat(init)|..]);
  }

  // ----- where pieces end -----

  // Where piece i starts and ends, counted from the front of the list.
  function Start(ps: seq<bytes>, i: nat): nat
    requires i <= |ps|
  {
    if i == 0 then 0 else Start(ps, i - 1) + |ps[i - 1]|
  }

  // Piece i ends strictly inside the four bytes after position p, or is empty and sits at p.
  predicate Cuts(ps: seq<bytes>, i: nat, p: nat)
    requires i < |ps|
  {
    p < Start(ps, i + 1) < p + 4 || Start(ps, i) == Start(ps, i + 1) == p
  }

  ghost predicate NoCut(ps: seq<bytes>, p: nat) {
    forall i: nat :: i < |ps| ==> !Cuts(ps, i, p)
  }

  // What is left at position p is nothing, or begins with a piece of at least four bytes.
  predicate HeadHolds4(ps: seq<bytes>, p: nat)
    requires p <= |Flat(ps)|
  {
    var rest := Drained(ps, p);
    rest == [] || |rest[0]| >= 4
  }

  lemma {:induction false} StartTail(ps: seq<bytes>, i: nat)
    requires 0 < i <= |ps|
    ensures Start(ps, i) == |ps[0]| + Start(ps[1..], i - 1)
  {
    if i > 1 {
      StartTail(ps, i - 1);
      assert ps[1..][i - 2] == ps[i - 1];
    } else {
      assert Start(ps, 1) == Start(ps, 0) + |ps[0]|;
    }
  }

  lemma {:induction false} StartGrows(ps: seq<bytes>, i: nat, j: nat)
    requires i <= j <= |ps|
    ensures Start(ps, i) <= Start(ps, j)
  {
    if i < j {
      StartGrows(ps, i, j - 1);
    }
  }

  lemma NoCutTail(ps: seq<bytes>, p: nat)
    requires ps != [] && p > 0 && |ps[0]| <= p
    ensures NoCut(ps, p) <==> NoCut(ps[1..], p - |ps[0]|)
  {
    var q: nat := p - |ps[0]|;
    StartTail(ps, 1);
    assert !Cuts(ps, 0, p);
    forall i: nat | i < |ps| - 1
      ensures Cuts(ps[1..], i, q) <==> Cuts(ps, i + 1, p)
    {
      StartTail(ps, i + 1);
      StartTail(ps, i + 2);
    }
    if NoCut(ps[1..], q) {
      forall i: nat | i < |ps| ensures !Cuts(ps, i, p) {
        if i > 0 { assert !Cuts(ps[1..], i - 1, q); }
      }
    }
    if NoCut(ps, p) {
      forall i: nat | i < |ps[1..]| ensures !Cuts(ps[1..], i, q) {
        assert !Cuts(ps, i + 1, p);
      }
    }
  }

  lemma NoCutHere(ps: seq<bytes>, p: nat)
    requires ps != [] && (p == 0 || p < |ps[0]|)
    ensures NoCut(ps, p) <==> |ps[0]| - p >= 4
  {
    assert Start(ps, 1) == Start(ps, 0) + |ps[0]|;
    if |ps[0]| - p >= 4 {
      forall i: nat | i < |ps| ensures !Cuts(ps, i, p) {
        StartGrows(ps, 1, i + 1);
      }
    } else {
      assert Cuts(ps, 0, p);
    }
  }

  // The chunk list at p is usable exactly when no piece cuts the four bytes there.
  lemma {:induction false} HeadHolds4Exactly(ps: seq<bytes>, p: nat)
    requires p <= |Flat(ps)|
    ensures HeadHolds4(ps, p) <==> NoCut(ps, p)
    decreases |ps|
  {
    hide NoCut;
    if ps == [] {
      NoCutEmpty(p);
    } else if p == 0 || p < |ps[0]| {
      NoCutHere(ps, p);
    } else {
      NoCutTail(ps, p);
      HeadHolds4Exactly(ps[1..], p - |ps[0]|);
    }
  }

  lemma NoCutEmpty(p: nat)
    ensures NoCut([], p)
  {}

  // ----- cutting into blocks -----

  // What whole blocks of c bytes leave over.
  function Remainder(c: nat, text: bytes): (r: bytes)
    requires c > 0
    ensures |r| < c
    decreases |text|
  {
    if |text| < c then text else Remainder(c, text[c..])
  }

  lemma {:induction false} RemainderMore(c: nat, text: bytes, more: bytes)
    requires c > 0
    ensures Remainder(c, text + more) == Remainder(c, Remainder(c, text) + more)
    decreases |text|
  {
    if |text| >= c {
      assert (text + more)[c..] == text[c..] + more;
      RemainderMore(c, text[c..], more);
    }
  }

  // ----- 32-bit words, most significant byte first -----

  const WORD := 0x1_0000_0000

  function Be32(n: nat): (b: bytes)
    requires n < WORD
    ensures |b| == 4
  {
    [n / 0x1000000, n / 0x10000 % 0x100, n / 0x100 % 0x100, n % 0x100]
  }

  function ReadBe32(b: bytes): (n: nat)
    requires |b| == 4
    ensures n < WORD
  {
    (b[0] as int) * 0x1000000 + (b[1] as int) * 0x10000 + (b[2] as int) * 0x100 + b[3] as int
  }

  lemma ReadBe32OfBe32(n: nat)
    requires n < WORD
    ensures ReadBe32(Be32(n)) == n
  {
    var a, b, c := n / 0x100, n / 0x10000, n / 0x1000000;
    assert n == a * 0x100 + n % 0x100 && a == n / 0x100;
    assert b == a / 0x100 && a == b * 0x100 + a % 0x100;
    assert c == b / 0x100 && b == c * 0x100 + b % 0x100;
  }
}
