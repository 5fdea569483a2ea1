/**
 * ISO calendar dates `YYYY-MM-DD`. On them the string order used to sort the journal
 * groups coincides with chronological order, which is why sorting the keys as strings
 * lists the latest day first.
 */
module IsoDate {
  import opened Strings
  import opened Journal

  predicate IsDigit(c: char)
  {
    '0' <= c <= '9'
  }

  function DigitValue(c: char): (r: nat)
    requires IsDigit(c)
  {
    (c as int) - ('0' as int)
  }

  predicate AllDigits(s: string)
  {
    forall i :: 0 <= i < |s| ==> IsDigit(s[i])
  }

  function Pow10(n: nat): (p: nat)
    ensures p >= 1
  {
    if n == 0 then 1 else 10 * Pow10(n - 1)
  }

  /** The decimal value of a string of digits, most significant first. */
  function Number(s: string): (n: nat)
    requires AllDigits(s)
  {
    if s == [] then 0 else DigitValue(s[0]) * Pow10(|s| - 1) + Number(s[1..])
  }

  lemma {:induction false} NumberBound(s: string)
    requires AllDigits(s)
    ensures Number(s) < Pow10(|s|)
  {
    if s != [] {
      NumberBound(s[1..]);
      LeadingDigitDominates(DigitValue(s[0]), 10, Pow10(|s| - 1), Number(s[1..]), 0);
    }
  }

  /** A larger leading digit outweighs any tail. */
  lemma LeadingDigitDominates(da: nat, db: nat, p: nat, ra: nat, rb: nat)
    requires da < db && ra < p
    ensures da * p + ra < db * p + rb
  {
    calc {
      da * p + ra;
    <
      da * p + p;
    ==
      (da + 1) * p;
    <=  { assert da + 1 <= db; }
      db * p;
    <=
      db * p + rb;
    }
  }

  /** On digit strings of one length the string order is the numeric order. */
  lemma {:induction false} DigitsOrder(a: string, b: string)
    requires AllDigits(a) && AllDigits(b) && |a| == |b|
    ensures LexLess(a, b) <==> Number(a) < Number(b)
    ensures a == b <==> Number(a) == Number(b)
  {
    if a != [] {
      var p := Pow10(|a| - 1);
      var a', b' := a[1..], b[1..];
      assert AllDigits(a') && AllDigits(b');
      var da, db := DigitValue(a[0]), DigitValue(b[0]);
      assert Number(a) == da * p + Number(a');
      assert Number(b) == db * p + Number(b');
      NumberBound(a');
      NumberBound(b');
      if a[0] == b[0] {
        DigitsOrder(a', b');
        assert a == [a[0]] + a' && b == [b[0]] + b';
      } else if a[0] < b[0] {
        LeadingDigitDominates(da, db, p, Number(a'), Number(b'));
      } else {
        LeadingDigitDominates(db, da, p, Number(b'), Number(a'));
      }
    }
  }

  /** For equal-length heads, the order of two concatenations is decided by the heads first. */
  lemma {:induction false} LexLessConcat(x: string, y: string, u: string, v: string)
    requires |x| == |u|
    ensures LexLess(x + y, u + v) <==> LexLess(x, u) || (x == u && LexLess(y, v))
  {
    if x == [] {
      assert x + y == y && u + v == v;
    } else {
      assert (x + y)[0] == x[0] && (u + v)[0] == u[0];
      assert (x + y)[1..] == x[1..] + y && (u + v)[1..] == u[1..] + v;
      LexLessConcat(x[1..], y, u[1..], v);
      if x[0] == u[0] {
        assert x == [x[0]] + x[1..] && u == [u[0]] + u[1..];
      }
    }
  }

  predicate IsIsoDate(s: string)
  {
    |s| == 10 && s[4] == '-' && s[7] == '-'
    && AllDigits(s[..4]) && AllDigits(s[5..7]) && AllDigits(s[8..])
  }

  function Year(s: string): (r: nat) requires IsIsoDate(s) { Number(s[..4]) }
  function Month(s: string): (r: nat) requires IsIsoDate(s) { Number(s[5..7]) }
  function Day(s: string): (r: nat) requires IsIsoDate(s) { Number(s[8..]) }

  /** `a` is an earlier day than `b`. */
  predicate Earlier(a: string, b: string)
    requires IsIsoDate(a) && IsIsoDate(b)
  {
    Year(a) < Year(b)
    || (Year(a) == Year(b) && (Month(a) < Month(b) || (Month(a) == Month(b) && Day(a) < Day(b))))
  }

  /** On ISO dates the lexicographic order used by the sort is chronological order. */
  lemma LexLessIsChronological(a: string, b: string)
    requires IsIsoDate(a) && IsIsoDate(b)
    ensures LexLess(a, b) <==> Earlier(a, b)
  {
    assert a == a[..4] + ("-" + (a[5..7] + ("-" + a[8..])));
    assert b == b[..4] + ("-" + (b[5..7] + ("-" + b[8..])));
    DigitsOrder(a[..4], b[..4]);
    DigitsOrder(a[5..7], b[5..7]);
    DigitsOrder(a[8..], b[8..]);
    LexLessIrreflexive("-");
    LexLessConcat(a[..4], "-" + (a[5..7] + ("-" + a[8..])), b[..4], "-" + (b[5..7] + ("-" + b[8..])));
    LexLessConcat("-", a[5..7] + ("-" + a[8..]), "-", b[5..7] + ("-" + b[8..]));
    LexLessConcat(a[5..7], "-" + a[8..], b[5..7], "-" + b[8..]);
    LexLessConcat("-", a[8..], "-", b[8..]);
  }

  /** When every date key is an ISO date, the groups run from the latest day to the earliest. */
  lemma GroupsLatestFirst(es: seq<JournalSummary>, gs: seq<DateGroup>)
    requires IsDateGrouping(es, gs)
    requires forall e :: e in es ==> IsIsoDate(e.date)
    ensures forall j :: 0 <= j < |gs| ==> IsIsoDate(gs[j].date)
    ensures forall i, j :: 0 <= i < j < |gs| ==> Earlier(gs[j].date, gs[i].date)
  {
    forall j | 0 <= j < |gs| ensures IsIsoDate(gs[j].date) {
      assert Keys(gs)[j] in Keys(gs);
    }
    forall i, j | 0 <= i < j < |gs| ensures Earlier(gs[j].date, gs[i].date) {
      assert Keys(gs)[i] in Keys(gs) && Keys(gs)[j] in Keys(gs);
      assert LexLess(Keys(gs)[j], Keys(gs)[i]);
      LexLessIsChronological(gs[j].date, gs[i].date);
    }
  }
}
