/**
 * Display text with the numbers left symbolic. JavaScript turns a number into
 * text in template literals (`${rate}%`); the exact digits it prints are not part
 * of this model, so a text is a sequence of literal pieces and number pieces.
 */
module Text {

  datatype Piece = Lit(s: string) | Num(x: real)

  type Text = seq<Piece>

  /** `parts.join(sep)`. */
  function Join(parts: seq<Text>, sep: string): Text {
    if |parts| == 0 then []
    else if |parts| == 1 then parts[0]
    else parts[0] + [Lit(sep)] + Join(parts[1..], sep)
  }

  /** `t.split(sep)`, cutting at each separator piece. */
  function Split(t: Text, sep: string): (r: seq<Text>)
    ensures |r| > 0
  {
    if |t| == 0 then [[]]
    else
      var rest := Split(t[1..], sep);
      if t[0] == Lit(sep) then [[]] + rest else [[t[0]] + rest[0]] + rest[1..]
  }

  /** No piece of `t` is the separator itself. */
  predicate FreeOf(t: Text, sep: string) {
    forall i :: 0 <= i < |t| ==> t[i] != Lit(sep)
  }

  lemma {:induction false} SplitFree(t: Text, sep: string)
    requires FreeOf(t, sep)
    ensures Split(t, sep) == [t]
  {
    if |t| > 0 {
      SplitFree(t[1..], sep);
      assert [t[0]] + t[1..] == t;
    }
  }

  lemma {:induction false} SplitAppend(a: Text, b: Text, sep: string)
    requires FreeOf(a, sep)
    ensures Split(a + [Lit(sep)] + b, sep) == [a] + Split(b, sep)
  {
    if |a| == 0 {
      assert a + [Lit(sep)] + b == [Lit(sep)] + b;
      assert ([Lit(sep)] + b)[1..] == b;
    } else {
      var t := a + [Lit(sep)] + b;
      assert t[1..] == a[1..] + [Lit(sep)] + b;
      SplitAppend(a[1..], b, sep);
      assert [a[0]] + a[1..] == a;
    }
  }

  /** Splitting a join at its separator gives back the parts, when no part holds the separator. */
  lemma {:induction false} SplitJoin(parts: seq<Text>, sep: string)
    requires |parts| > 0
    requires forall k :: 0 <= k < |parts| ==> FreeOf(parts[k], sep)
    ensures Split(Join(parts, sep), sep) == parts
  {
    if |parts| == 1 {
      SplitFree(parts[0], sep);
    } else {
      SplitJoin(parts[1..], sep);
      SplitAppend(parts[0], Join(parts[1..], sep), sep);
      assert [parts[0]] + parts[1..] == parts;
    }
  }

  function PieceNumbers(p: Piece): seq<real> {
    if p.Num? then [p.x] else []
  }

  /** The numbers a text shows, in reading order. */
  function Numbers(t: Text): seq<real> {
    if |t| == 0 then [] else PieceNumbers(t[0]) + Numbers(t[1..])
  }

  lemma {:induction false} NumbersAppend(a: Text, b: Text)
    ensures Numbers(a + b) == Numbers(a) + Numbers(b)
  {
    if |a| == 0 {
      assert a + b == b;
    } else {
      var ab := a + b;
      assert ab[0] == a[0] && ab[1..] == a[1..] + b;
      NumbersAppend(a[1..], b);
      assert Numbers(ab) == PieceNumbers(a[0]) + (Numbers(a[1..]) + Numbers(b));
    }
  }

  function FlattenNumbers(parts: seq<Text>): seq<real> {
    if |parts| == 0 then [] else Numbers(parts[0]) + FlattenNumbers(parts[1..])
  }

  /** A join shows the numbers of its parts, part by part, in order. */
  lemma {:induction false} NumbersJoin(parts: seq<Text>, sep: string)
    ensures Numbers(Join(parts, sep)) == FlattenNumbers(parts)
  {
    if |parts| == 1 {
      assert FlattenNumbers(parts) == Numbers(parts[0]) + FlattenNumbers([]);
    } else if |parts| > 1 {
      NumbersJoin(parts[1..], sep);
      NumbersAppend(parts[0] + [Lit(sep)], Join(parts[1..], sep));
      NumbersAppend(parts[0], [Lit(sep)]);
    }
  }
}
