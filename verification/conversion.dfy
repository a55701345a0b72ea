/**
 * `kv_to_letter` of singupy/conversion.py: the voltage level in kV, converted with `int()`,
 * classified into the letter of its voltage region.
 */
module Conversion {
  import opened Base
  import Decimal

  /** One entry of the `ranges` dictionary: the key `(lower, upper)` and its letter. */
  datatype Range = Range(lower: int, upper: int, letter: char)

  /** The `ranges` dictionary in insertion order, which is the order Python iterates its keys in. */
  const Ranges: seq<Range> := [
    Range(380, 420, 'C'), Range(220, 380, 'D'), Range(110, 220, 'E'), Range(60, 110, 'F'),
    Range(45, 60, 'G'), Range(30, 45, 'H'), Range(20, 30, 'J'), Range(10, 20, 'K'),
    Range(6, 10, 'L'), Range(1, 6, 'M')]

  /** Every letter the function can return: `I` is not among them. */
  const Letters: set<char> := {'B', 'C', 'D', 'E', 'F', 'G', 'H', 'J', 'K', 'L', 'M', 'N'}

  /** The argument as Python sees it: an integer or a text that `int()` may or may not accept. */
  datatype KvArg = IntArg(n: int) | TextArg(text: string)

  /** The two ValueErrors: an argument `int()` rejects, and a level no region matches. */
  datatype ConversionError = NotNumeric(arg: KvArg) | NoRegion(kv: int)

  /** The half-open test `lower <= kv < upper` of the loop. */
  predicate InRange(r: Range, kv: int) {
    r.lower <= kv < r.upper
  }

  /**
   * The voltage regions written out from the top down, independently of the dictionary: each
   * region starts at its lower bound, 420 and above is `B`, and below 1 is `N`.
   */
  function Band(kv: int): char {
    if kv >= 420 then 'B'
    else if kv >= 380 then 'C'
    else if kv >= 220 then 'D'
    else if kv >= 110 then 'E'
    else if kv >= 60 then 'F'
    else if kv >= 45 then 'G'
    else if kv >= 30 then 'H'
    else if kv >= 20 then 'J'
    else if kv >= 10 then 'K'
    else if kv >= 6 then 'L'
    else if kv >= 1 then 'M'
    else 'N'
  }

  /** The `for (lower, upper) in ranges.keys()` loop from the `i`-th key on: the letter of the first range holding `kv`. */
  function FirstRange(kv: int, i: nat): Option<char>
    requires i <= |Ranges|
    decreases |Ranges| - i
  {
    if i == |Ranges| then None
    else if InRange(Ranges[i], kv) then Some(Ranges[i].letter)
    else FirstRange(kv, i + 1)
  }

  /** The upper end of what the ranges from the `i`-th on cover: they tile [1, Upper(i)). */
  function Upper(i: nat): int
    requires i <= |Ranges|
  {
    if i == |Ranges| then 1 else Ranges[i].upper
  }

  /**
   * The ranges from the `i`-th on tile [1, Upper(i)) without gaps or overlaps: the loop finds a
   * range exactly for the levels in there, and its letter is the region's.
   */
  lemma {:induction false} FirstRangeIsBand(kv: int, i: nat)
    requires i <= |Ranges|
    ensures FirstRange(kv, i) == if 1 <= kv < Upper(i) then Some(Band(kv)) else None
    decreases |Ranges| - i
  {
    if i < |Ranges| {
      FirstRangeIsBand(kv, i + 1);
      assert Ranges[i].lower == Upper(i + 1);
    }
  }

  /**
   * The classification of an integer level: the loop over the ranges, then `B` from 420 up and
   * `N` below 1. It agrees with the regions written out, so the final ValueError is never
   * raised for an integer.
   */
  function Classify(kv: int): (r: Result<char, ConversionError>)
    ensures r == Success(Band(kv))
    ensures r.Success? && r.value in Letters
  {
    FirstRangeIsBand(kv, 0);
    match FirstRange(kv, 0)
    case Some(c) => Success(c)
    case None =>
      if kv >= 420 then Success('B')
      else if kv < 1 then Success('N')
      else Failure(NoRegion(kv))
  }

  /** `kv_to_letter(kv)`: `int(kv)` first, whose ValueError is reported as `NotNumeric`. */
  function KvToLetter(arg: KvArg): (r: Result<char, ConversionError>)
    ensures arg.IntArg? ==> r == Success(Band(arg.n))
    ensures arg.TextArg? ==> (r.Failure? <==> Decimal.ParseInt(arg.text).None?)
    ensures arg.TextArg? && r.Success? ==> r.value == Band(Decimal.ParseInt(arg.text).value)
    ensures r.Failure? ==> r.error == NotNumeric(arg)
  {
    match arg
    case IntArg(n) => Classify(n)
    case TextArg(s) =>
      match Decimal.ParseInt(s)
      case None => Failure(NotNumeric(arg))
      case Some(n) => Classify(n)
  }

  /** A higher level never gets a later letter: the letters run backwards through the alphabet as the voltage rises. */
  lemma {:induction false} Monotone(kv1: int, kv2: int)
    requires kv1 <= kv2
    ensures KvToLetter(IntArg(kv2)).value <= KvToLetter(IntArg(kv1)).value
  {
    assert Band(kv2) <= Band(kv1);
  }

  /** The lower bound is inclusive and the upper one exclusive, at the outer boundaries as well. */
  lemma Boundaries()
    ensures KvToLetter(IntArg(380)) == Success('C')
    ensures KvToLetter(IntArg(379)) == Success('D')
    ensures KvToLetter(IntArg(420)) == Success('B')
    ensures KvToLetter(IntArg(419)) == Success('C')
    ensures KvToLetter(IntArg(1)) == Success('M')
    ensures KvToLetter(IntArg(0)) == Success('N')
    ensures KvToLetter(IntArg(-5)) == Success('N')
  {
  }

  /** The levels the module's test table checks. */
  lemma TestTable()
    ensures KvToLetter(IntArg(400)) == Success('C')
    ensures KvToLetter(IntArg(220)) == Success('D')
    ensures KvToLetter(IntArg(150)) == Success('E')
    ensures KvToLetter(IntArg(132)) == Success('E')
    ensures KvToLetter(IntArg(60)) == Success('F')
    ensures KvToLetter(IntArg(50)) == Success('G')
    ensures KvToLetter(IntArg(33)) == Success('H')
    ensures KvToLetter(IntArg(20)) == Success('J')
    ensures KvToLetter(IntArg(10)) == Success('K')
  {
  }

  /** A decimal text behaves like its number, and a word is rejected. */
  lemma TextArguments()
    ensures KvToLetter(TextArg("380")) == Success('C')
    ensures KvToLetter(TextArg("fejl")) == Failure(NotNumeric(TextArg("fejl")))
  {
    assert Decimal.ParseInt("380") == Some(380) by {
      Decimal.ParseShowRoundTrip(380);
      assert Decimal.ShowInt(380) == "380";
    }
    assert Decimal.ParseInt("fejl") == None by {
      assert Decimal.TrimStart("fejl") == "fejl";
      assert Decimal.TrimEnd("fejl") == "fejl";
      assert !Decimal.IsDigit("fejl"[0]);
    }
  }

  /** Passing `str(kv)` instead of `kv` gives the same letter. */
  lemma {:induction false} TextOfLevel(kv: int)
    ensures KvToLetter(TextArg(Decimal.ShowInt(kv))) == KvToLetter(IntArg(kv))
  {
    Decimal.ParseShowRoundTrip(kv);
  }
}
