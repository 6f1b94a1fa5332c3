/** Searching a gene for a codon: a gene string is cut into codons of three nucleotides,
    which are then searched for one by one, or by bisection once sorted. */
module DnaSearch {
  import opened Wrappers
  import GenericSearch

  /** The nucleotides, valued 1 to 4 in this order. */
  datatype Nucleotide = A | C | G | T

  type Codon = (Nucleotide, Nucleotide, Nucleotide)

  type Gene = seq<Codon>

  function Value(n: Nucleotide): (v: int)
    ensures 1 <= v <= 4
  {
    match n
    case A => 1
    case C => 2
    case G => 3
    case T => 4
  }

  /** The lookup of a nucleotide by its name; nothing (a `KeyError`) for any other
      character, lower-case letters included. */
  function Lookup(c: char): (r: Option<Nucleotide>)
    ensures r.Some? <==> c in "ACGT"
  {
    if c == 'A' then Some(A)
    else if c == 'C' then Some(C)
    else if c == 'G' then Some(G)
    else if c == 'T' then Some(T)
    else None
  }

  /** `Success(g + h)` for a successful `r` holding `h`, the failure of `r` otherwise. */
  function Prepend(g: Gene, r: Result<Gene, char>): Result<Gene, char>
  {
    match r
    case Success(h) => Success(g + h)
    case Failure(c) => Failure(c)
  }

  lemma PrependEmpty(r: Result<Gene, char>)
    ensures Prepend([], r) == r
  {
    if r.Success? {
      assert [] + r.value == r.value;
    }
  }

  lemma PrependAssociative(g: Gene, h: Gene, r: Result<Gene, char>)
    ensures Prepend(g, Prepend(h, r)) == Prepend(g + h, r)
  {
    if r.Success? {
      assert g + (h + r.value) == g + h + r.value;
    }
  }

  /** The reference meaning of `string_to_gen`: the codons of `s` in order, three
      characters each, a trailing one or two characters ignored; the first character of
      a complete codon that names no nucleotide is the failure. */
  function Parse(s: string): (r: Result<Gene, char>)
    ensures r.Success? ==> |r.value| == |s| / 3
    ensures r.Failure? ==> r.error !in "ACGT"
    decreases |s|
  {
    if |s| < 3 then Success([])
    else if Lookup(s[0]).None? then Failure(s[0])
    else if Lookup(s[1]).None? then Failure(s[1])
    else if Lookup(s[2]).None? then Failure(s[2])
    else Prepend([(Lookup(s[0]).value, Lookup(s[1]).value, Lookup(s[2]).value)], Parse(s[3..]))
  }

  /** Codon `k` of a parsed gene is made of characters `3k`, `3k+1` and `3k+2`. */
  lemma {:induction false} ParseCodons(s: string, k: nat)
    requires Parse(s).Success? && k < |s| / 3
    ensures Some(Parse(s).value[k].0) == Lookup(s[3 * k])
    ensures Some(Parse(s).value[k].1) == Lookup(s[3 * k + 1])
    ensures Some(Parse(s).value[k].2) == Lookup(s[3 * k + 2])
    decreases |s|
  {
    if k > 0 {
      ParseCodons(s[3..], k - 1);
      assert s[3..][3 * (k - 1)] == s[3 * k];
      assert s[3..][3 * (k - 1) + 1] == s[3 * k + 1];
      assert s[3..][3 * (k - 1) + 2] == s[3 * k + 2];
    }
  }

  /** Parsing fails exactly when some character of a complete codon names no
      nucleotide. */
  lemma {:induction false} ParseFails(s: string)
    ensures Parse(s).Failure? <==> exists i :: 0 <= i < |s| / 3 * 3 && s[i] !in "ACGT"
    decreases |s|
  {
    if |s| >= 3 {
      ParseFails(s[3..]);
      if Parse(s).Failure? && Lookup(s[0]).Some? && Lookup(s[1]).Some? && Lookup(s[2]).Some? {
        var i :| 0 <= i < |s[3..]| / 3 * 3 && s[3..][i] !in "ACGT";
        assert s[i + 3] !in "ACGT";
      }
      if exists i :: 0 <= i < |s| / 3 * 3 && s[i] !in "ACGT" {
        var i :| 0 <= i < |s| / 3 * 3 && s[i] !in "ACGT";
        if i >= 3 {
          assert s[3..][i - 3] == s[i];
        }
      }
    }
  }

  /** `string_to_gen`: the codons of `s`, or the `KeyError` of the first character that
      names no nucleotide. */
  method StringToGene(s: string) returns (r: Result<Gene, char>)
    ensures r == Parse(s)
  {
    var gene: Gene := [];
    var i := 0;
    assert s[0..] == s;
    PrependEmpty(Parse(s));
    while i < |s|
      invariant 0 <= i <= |s| && i % 3 == 0
      invariant Parse(s) == Prepend(gene, Parse(s[i..]))
    {
      if i + 2 >= |s| {
        assert Parse(s[i..]) == Success([]) && gene + [] == gene;
        return Success(gene);
      }
      var first := Lookup(s[i]);
      if first.None? {
        return Failure(s[i]);
      }
      var second := Lookup(s[i + 1]);
      if second.None? {
        return Failure(s[i + 1]);
      }
      var third := Lookup(s[i + 2]);
      if third.None? {
        return Failure(s[i + 2]);
      }
      var codon := (first.value, second.value, third.value);
      assert s[i..][3..] == s[i + 3..];
      PrependAssociative(gene, [codon], Parse(s[i + 3..]));
      gene := gene + [codon];
      i := i + 3;
    }
    assert gene + [] == gene;
    return Success(gene);
  }

  /** Python's ordering of codons: tuples compare element by element, nucleotides by
      value. */
  predicate Less(a: Codon, b: Codon)
  {
    if a.0 != b.0 then Value(a.0) < Value(b.0)
    else if a.1 != b.1 then Value(a.1) < Value(b.1)
    else Value(a.2) < Value(b.2)
  }

  lemma ValueInjective(x: Nucleotide, y: Nucleotide)
    ensures Value(x) == Value(y) <==> x == y
  {
  }

  /** The codon order is a strict total order. */
  lemma LessOrder(a: Codon, b: Codon, c: Codon)
    ensures Less(a, b) ==> !Less(b, a)
    ensures Less(a, b) && Less(b, c) ==> Less(a, c)
    ensures a != b ==> Less(a, b) || Less(b, a)
  {
    ValueInjective(a.0, b.0);
    ValueInjective(a.1, b.1);
    ValueInjective(a.2, b.2);
    ValueInjective(b.0, c.0);
    ValueInjective(b.1, c.1);
    ValueInjective(b.2, c.2);
  }

  /** Ascending codon order, as `sorted` leaves a gene. */
  ghost predicate Sorted(gene: Gene)
  {
    forall i, j :: 0 <= i < j < |gene| ==> !Less(gene[j], gene[i])
  }

  /** `linear_contains`: the same early-exit scan as the generic one. */
  method LinearContains(gene: Gene, keyCodon: Codon) returns (found: bool)
    ensures found <==> keyCodon in gene
  {
    found := GenericSearch.LinearContains(gene, keyCodon);
  }

  /** `binary_contains` on a sorted gene: bisects on the codon order, testing "greater"
      before "less". */
  method BinaryContains(gene: Gene, keyCodon: Codon) returns (found: bool)
    requires Sorted(gene)
    ensures found <==> keyCodon in gene
  {
    var low, high := 0, |gene| - 1;
    while low <= high
      invariant 0 <= low <= high + 1 <= |gene|
      invariant forall i :: 0 <= i < low ==> Less(gene[i], keyCodon)
      invariant forall i :: high < i < |gene| ==> Less(keyCodon, gene[i])
      decreases high - low
    {
      var mid := (low + high) / 2;
      if Less(keyCodon, gene[mid]) {
        forall i | mid <= i < |gene|
          ensures Less(keyCodon, gene[i])
        {
          if i != mid {
            LessOrder(keyCodon, gene[mid], gene[i]);
            LessOrder(gene[mid], gene[i], gene[i]);
          }
        }
        high := mid - 1;
      } else if Less(gene[mid], keyCodon) {
        forall i | 0 <= i <= mid
          ensures Less(gene[i], keyCodon)
        {
          if i != mid {
            LessOrder(gene[i], gene[mid], keyCodon);
            LessOrder(gene[mid], gene[i], gene[i]);
          }
        }
        low := mid + 1;
      } else {
        LessOrder(keyCodon, gene[mid], gene[mid]);
        return true;
      }
    }
    forall i | 0 <= i < |gene|
      ensures gene[i] != keyCodon
    {
      LessOrder(gene[i], keyCodon, keyCodon);
    }
    return false;
  }
}
