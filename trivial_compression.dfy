/** Two-bit compression of a DNA string: each nucleotide becomes two bits of one
    arbitrary-precision integer, behind a leading sentinel bit 1, and decompression
    reads the pairs back from the low end and reverses them. */
module TrivialCompression {
  import opened Wrappers
  import GenericSearch
  import opened PythonInt

  /** Upper-casing of one character, for the ASCII letters. */
  function UpperChar(c: char): (u: char)
    ensures 'a' <= c <= 'z' ==> u as int == c as int - 32
    ensures !('a' <= c <= 'z') ==> u == c
  {
    if 'a' <= c <= 'z' then (c as int - 32) as char else c
  }

  function Upper(s: string): (u: string)
    ensures |u| == |s|
    ensures forall i :: 0 <= i < |s| ==> u[i] == UpperChar(s[i])
  {
    seq(|s|, i requires 0 <= i < |s| => UpperChar(s[i]))
  }

  /** The two bits of a nucleotide: A = 00, C = 01, G = 10, T = 11; nothing for any
      other character. */
  function Code(c: char): (r: Option<nat>)
    ensures r.Some? ==> r.value < 4
    ensures r.Some? <==> c in "ACGT"
  {
    if c == 'A' then Some(0)
    else if c == 'C' then Some(1)
    else if c == 'G' then Some(2)
    else if c == 'T' then Some(3)
    else None
  }

  /** The nucleotide of two bits. */
  function Letter(bits: nat): (c: char)
    requires bits < 4
    ensures Code(c) == Some(bits)
  {
    if bits == 0 then 'A' else if bits == 1 then 'C' else if bits == 2 then 'G' else 'T'
  }

  lemma LetterCode(c: char, bits: nat)
    requires Code(c) == Some(bits)
    ensures Letter(bits) == c
  {
  }

  /** The message of the `ValueError` raised for a character that is not a nucleotide. */
  function InvalidMessage(c: char): string
  {
    "Invalid Nucleotide: " + [c]
  }

  /** The reference meaning of compressing the upper-cased gene `u`: start from the
      sentinel 1 and, for each nucleotide in turn, shift left by two bits and put its
      code in the two new low bits; fail with the first character that is not a
      nucleotide. */
  function Pack(u: string): (r: Result<nat, char>)
    ensures r.Success? ==> r.value >= 1
    ensures r.Success? <==> forall i :: 0 <= i < |u| ==> u[i] in "ACGT"
    ensures r.Failure? ==> r.error in u && r.error !in "ACGT"
  {
    if u == [] then Success(1)
    else
      var prefix, last := u[..|u| - 1], u[|u| - 1];
      assert forall i :: 0 <= i < |prefix| ==> prefix[i] == u[i];
      match Pack(prefix)
      case Failure(c) => Failure(c)
      case Success(bits) =>
        if Code(last).None? then Failure(last) else Success(bits * 4 + Code(last).value)
  }

  /** The failure reported is the first character that is not a nucleotide. */
  lemma {:induction false} PackFirstInvalid(u: string, i: nat)
    requires i < |u| && u[i] !in "ACGT"
    requires forall k :: 0 <= k < i ==> u[k] in "ACGT"
    ensures Pack(u) == Failure(u[i])
  {
    if i < |u| - 1 {
      PackFirstInvalid(u[..|u| - 1], i);
    } else {
      assert Pack(u[..|u| - 1]).Success?;
    }
  }

  /** Shifting right by two undoes a shift left by two followed by a code. */
  lemma ShrTwo(a: nat, c: nat)
    requires c < 4
    ensures Shr(a * 4 + c, 2) == a
    ensures BitLength(a * 4 + c) == (if a == 0 then BitLength(c) else BitLength(a) + 2)
  {
    var x := a * 4 + c;
    assert Shr(x, 1) == Shr(x, 0) / 2 == x / 2;
    assert Shr(x, 2) == Shr(x, 1) / 2;
    if a > 0 {
      assert (a * 4 + c) / 2 == 2 * a + c / 2;
      assert (2 * a + c / 2) / 2 == a;
    }
  }

  /** The packed integer of a gene of `n` nucleotides has `2 n + 1` bits, and pair `j`
      from the low end holds the code of the `j`-th nucleotide from the end; above them
      sits the sentinel. */
  lemma {:induction false} PackDigits(u: string, p: nat)
    requires Pack(u) == Success(p)
    ensures BitLength(p) == 2 * |u| + 1
    ensures Shr(p, 2 * |u|) == 1
    ensures forall j :: 0 <= j < |u| ==> Code(u[|u| - 1 - j]) == Some(Shr(p, 2 * j) % 4)
  {
    if u != [] {
      var prefix, last := u[..|u| - 1], u[|u| - 1];
      var q := Pack(prefix).value;
      var c := Code(last).value;
      PackDigits(prefix, q);
      assert p == q * 4 + c;
      ShrTwo(q, c);
      ShrAdd(p, 2 * |prefix|, 2);
      forall j | 0 <= j < |u|
        ensures Code(u[|u| - 1 - j]) == Some(Shr(p, 2 * j) % 4)
      {
        if j > 0 {
          ShrAdd(p, 2 * (j - 1), 2);
          assert prefix[|prefix| - 1 - (j - 1)] == u[|u| - 1 - j];
        }
      }
    }
  }

  /** The letters decompression collects from the low end of `bits`, before reversing:
      the nucleotide of each of the `k` lowest bit pairs, lowest first. */
  function Letters(bits: nat, k: nat): (s: string)
    ensures |s| == k
    ensures forall j :: 0 <= j < k ==> s[j] == Letter(Shr(bits, 2 * j) % 4)
  {
    if k == 0 then [] else Letters(bits, k - 1) + [Letter(Shr(bits, 2 * (k - 1)) % 4)]
  }

  /** The reference meaning of decompression: the nucleotides of the bit pairs below the
      top bit, most significant first. */
  function Unpack(bits: nat): (gene: string)
    ensures forall i :: 0 <= i < |gene| ==> gene[i] in "ACGT"
  {
    GenericSearch.Reverse(Letters(bits, BitLength(bits) / 2))
  }

  /** Decompressing what compression produced gives back the upper-cased gene. */
  lemma RoundTrip(gene: string, p: nat)
    requires Pack(Upper(gene)) == Success(p)
    ensures Unpack(p) == Upper(gene)
  {
    var u := Upper(gene);
    PackDigits(u, p);
    assert BitLength(p) / 2 == |u|;
    var r := Unpack(p);
    forall i | 0 <= i < |u|
      ensures r[i] == u[i]
    {
      LetterCode(u[i], Shr(p, 2 * (|u| - 1 - i)) % 4);
    }
  }

  /** The empty gene compresses to the sentinel alone, which decompresses to the empty
      gene. */
  lemma EmptyGene()
    ensures Pack(Upper("")) == Success(1)
    ensures Unpack(1) == ""
  {
    assert BitLength(1) == 1;
  }

  class CompressedGene {
    var bitString: nat

    constructor ()
      ensures bitString == 1
    {
      bitString := 1;
    }

    /** Packs `gene`, upper-cased, into `bitString`; reports the first character that is
        not a nucleotide. */
    method Compress(gene: string) returns (error: Option<string>)
      modifies this
      ensures error.None? <==> Pack(Upper(gene)).Success?
      ensures error.None? ==> bitString == Pack(Upper(gene)).value
      ensures error.Some? ==> error.value == InvalidMessage(Pack(Upper(gene)).error)
    {
      var u := Upper(gene);
      bitString := 1;
      for i := 0 to |u|
        invariant Pack(u[..i]) == Success(bitString)
      {
        var nucleotide := u[i];
        assert u[..i + 1][..i] == u[..i];
        bitString := bitString * 4;
        if nucleotide == 'A' {
          bitString := bitString + 0;
        } else if nucleotide == 'C' {
          bitString := bitString + 1;
        } else if nucleotide == 'G' {
          bitString := bitString + 2;
        } else if nucleotide == 'T' {
          bitString := bitString + 3;
        } else {
          assert forall k :: 0 <= k < i ==> u[k] in "ACGT" by {
            assert forall k :: 0 <= k < i ==> u[..i][k] == u[k];
          }
          PackFirstInvalid(u, i);
          return Some(InvalidMessage(nucleotide));
        }
      }
      assert u[..|u|] == u;
      return None;
    }

    /** The genes bits, read back two at a time from the low end up to the sentinel and
        then reversed. */
    method Decompress() returns (gene: string)
      ensures gene == Unpack(bitString)
    {
      var collected: string := "";
      var length: int := BitLength(bitString);
      var i := 0;
      while i < length - 1
        invariant i % 2 == 0 && 0 <= i <= length
        invariant collected == Letters(bitString, i / 2)
      {
        var bits := Shr(bitString, i) % 4;
        assert Letters(bitString, i / 2 + 1) == collected + [Letter(bits)];
        if bits == 0 {
          collected := collected + "A";
        } else if bits == 1 {
          collected := collected + "C";
        } else if bits == 2 {
          collected := collected + "G";
        } else if bits == 3 {
          collected := collected + "T";
        } else {
          assert false;
        }
        i := i + 2;
      }
      assert i / 2 == length / 2;
      gene := GenericSearch.Reverse(collected);
    }
  }

  /** The constructor: compresses `gene`, raising `ValueError` on a character that is not
      a nucleotide. */
  method Create(gene: string) returns (r: Result<CompressedGene, string>)
    ensures r.Success? <==> forall i :: 0 <= i < |gene| ==> UpperChar(gene[i]) in "ACGT"
    ensures r.Success? ==> fresh(r.value) && r.value.bitString == Pack(Upper(gene)).value
    ensures r.Failure? ==> r.error == InvalidMessage(Pack(Upper(gene)).error)
  {
    var compressed := new CompressedGene();
    var error := compressed.Compress(gene);
    if error.Some? {
      return Failure(error.value);
    }
    return Success(compressed);
  }

  /** The program's check: compressing a gene and decompressing it gives the gene back,
      upper-cased. */
  method CompressDecompress(gene: string) returns (same: Option<bool>)
    ensures same.Some? <==> forall i :: 0 <= i < |gene| ==> UpperChar(gene[i]) in "ACGT"
    ensures same.Some? ==> same.value
  {
    var created := Create(gene);
    if created.Failure? {
      return None;
    }
    var decompressed := created.value.Decompress();
    RoundTrip(gene, created.value.bitString);
    return Some(decompressed == Upper(gene));
  }
}
