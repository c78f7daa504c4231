/**
  Input that arrives in pieces: which pieces have been taken when so many
  bytes have been asked for.
 */
module BcPieces {
  import opened Common

  function Concat(pieces: seq<seq<byte>>): seq<byte> {
    if pieces == [] then [] else pieces[0] + Concat(pieces[1..])
  }

  function Max(a: nat, b: nat): nat {
    if a < b then b else a
  }

  /** The pieces that are left when `have` bytes are there and pieces are taken until there are m. */
  function Drop(have: nat, pieces: seq<seq<byte>>, m: nat): seq<seq<byte>>
    decreases |pieces|
  {
    if have >= m || pieces == [] then pieces else Drop(have + |pieces[0]|, pieces[1..], m)
  }

  /** How many bytes are there then. */
  function Come(have: nat, pieces: seq<seq<byte>>, m: nat): (r: nat)
    ensures r >= have
    decreases |pieces|
  {
    if have >= m || pieces == [] then have else Come(have + |pieces[0]|, pieces[1..], m)
  }

  lemma {:induction false} ComeDrop(have: nat, pieces: seq<seq<byte>>, m: nat)
    ensures Come(have, pieces, m) + |Concat(Drop(have, pieces, m))| == have + |Concat(pieces)|
    decreases |pieces|
  {
    if have < m && pieces != [] { ComeDrop(have + |pieces[0]|, pieces[1..], m); }
  }

  lemma {:induction false} DropShift(have: nat, pieces: seq<seq<byte>>, k: nat, m: nat)
    requires k <= have
    ensures Drop(have - k, pieces, m) == Drop(have, pieces, k + m)
    decreases |pieces|
  {
    if have < k + m && pieces != [] { DropShift(have + |pieces[0]|, pieces[1..], k, m); }
  }

  /** Asking for m bytes, using up k of what has come and asking for m2 more. */
  lemma {:induction false} DropDrop(have: nat, pieces: seq<seq<byte>>, m: nat, k: nat, m2: nat)
    requires k <= Come(have, pieces, m)
    ensures Drop(Come(have, pieces, m) - k, Drop(have, pieces, m), m2) == Drop(have, pieces, Max(m, k + m2))
    decreases |pieces|
  {
    if have < m && pieces != [] {
      DropDrop(have + |pieces[0]|, pieces[1..], m, k, m2);
    } else {
      DropShift(have, pieces, k, m2);
    }
  }

  /** A piece ends, or the first one starts, after m bytes. */
  predicate Boundary(have: nat, pieces: seq<seq<byte>>, m: nat)
    decreases |pieces|
  {
    m == have || (pieces != [] && Boundary(have + |pieces[0]|, pieces[1..], m))
  }

  lemma {:induction false} BoundaryRange(have: nat, pieces: seq<seq<byte>>, m: nat)
    requires Boundary(have, pieces, m)
    ensures have <= m <= have + |Concat(pieces)|
    decreases |pieces|
  {
    if m != have { BoundaryRange(have + |pieces[0]|, pieces[1..], m); }
  }

  /** What has come ends at the first boundary that is far enough, or with the input. */
  lemma {:induction false} ComeIsBoundary(have: nat, pieces: seq<seq<byte>>, m: nat, b: nat)
    ensures var c := Come(have, pieces, m);
            && Boundary(have, pieces, c) && (c >= m || c == have + |Concat(pieces)|)
            && (Boundary(have, pieces, b) && b >= m ==> c <= b)
    decreases |pieces|
  {
    if have < m && pieces != [] {
      ComeIsBoundary(have + |pieces[0]|, pieces[1..], m, b);
    } else if Boundary(have, pieces, b) {
      BoundaryRange(have, pieces, b);
    }
  }

  /** A dump ends with a terminator, of which t and what follows are left and behind which `rest` is left.
      The reader has taken nothing from behind the dump: there is nothing, or a piece ends with the dump
      and the reader has not asked for more. It asks for more than the terminator unless that is a zero
      byte it has already got, which is so unless a piece ends right before it. */
  predicate Clean(have: nat, pieces: seq<seq<byte>>, t: seq<byte>, rest: seq<byte>) {
    var total := have + |Concat(pieces)|;
    var end := total - |rest|;
    || rest == []
    || (&& |rest| <= total && |t| <= total && t != []
        && Boundary(have, pieces, end)
        && if t[0] == 0 then total - |t| <= 12 || !Boundary(have, pieces, total - |t|) else |t| - |rest| == 5)
  }

  /** How much the reader has asked for when it has read the terminator: the header needs 13 bytes,
      the blocks everything before the terminator, and the terminator 5 more if its zero is not there yet. */
  function Asked(have: nat, pieces: seq<seq<byte>>, t: seq<byte>, c: nat): nat {
    if t != [] && t[0] == 0 && Come(have, pieces, Max(13, c)) > c then Max(13, c) else Max(13, c + 5)
  }

  lemma CleanExactly(have: nat, pieces: seq<seq<byte>>, t: seq<byte>, rest: seq<byte>)
    requires var total := have + |Concat(pieces)|;
             |t| + 12 <= total && |rest| < |t| <= |rest| + 5 && (t[0] == 0 ==> |rest| == |t| - 1)
    ensures var total := have + |Concat(pieces)|;
            Clean(have, pieces, t, rest)
            <==> Come(have, pieces, Asked(have, pieces, t, total - |t|)) == total - |rest|
  {
    hide Come;
    hide Boundary;
    var total := have + |Concat(pieces)|;
    var c, end := total - |t|, total - |rest|;
    ComeIsBoundary(have, pieces, Max(13, c), c);
    ComeIsBoundary(have, pieces, Max(13, c), end);
    ComeIsBoundary(have, pieces, Max(13, c + 5), end);
    BoundaryRangeIf(have, pieces, Come(have, pieces, Max(13, c + 5)));
    BoundaryRangeIf(have, pieces, Come(have, pieces, Max(13, c)));
  }

  lemma BoundaryRangeIf(have: nat, pieces: seq<seq<byte>>, m: nat)
    ensures Boundary(have, pieces, m) ==> have <= m <= have + |Concat(pieces)|
  {
    if Boundary(have, pieces, m) { BoundaryRange(have, pieces, m); }
  }
}
