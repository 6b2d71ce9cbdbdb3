/**
 * The label allocator: the text drawn inside a node is derived from its numeric id
 * as one capital letter followed by a run of apostrophes, so ids 0..25 are
 * A..Z, ids 26..51 are A'..Z', and so on.
 */
module Labels {
  import opened Wrappers

  const Alphabet: string := "ABCDEFGHIJKLMNOPQRSTUVWXYZ"

  /** A run of `k` apostrophes. */
  function Apostrophes(k: nat): (s: string)
    ensures |s| == k
    ensures forall i :: 0 <= i < k ==> s[i] == '\''
  {
    if k == 0 then "" else Apostrophes(k - 1) + "'"
  }

  /** The label of node `num`: letter `num % 26`, then `num / 26` apostrophes. */
  function Id2Alpha(num: nat): (s: string)
    ensures |s| == 1 + num / 26
    ensures s[0] == Alphabet[num % 26] && 'A' <= s[0] <= 'Z'
    ensures forall i :: 1 <= i < |s| ==> s[i] == '\''
  {
    [Alphabet[num % 26]] + Apostrophes(num / 26)
  }

  /** Reads a label back: the inverse of `Id2Alpha`, `None` for a text that is no label. */
  function Alpha2Id(s: string): (r: Option<nat>)
    ensures r.Some? ==> |s| >= 1 && 'A' <= s[0] <= 'Z'
  {
    if |s| >= 1 && 'A' <= s[0] <= 'Z' && forall i :: 1 <= i < |s| ==> s[i] == '\'' then
      Some((s[0] as int - 'A' as int) + 26 * (|s| - 1))
    else
      None
  }

  lemma AlphabetAt(k: nat)
    requires k < 26
    ensures Alphabet[k] as int == 'A' as int + k
  {
  }

  /** Every label reads back as the id it was made from. */
  lemma Id2AlphaRoundTrip(num: nat)
    ensures Alpha2Id(Id2Alpha(num)) == Some(num)
  {
    AlphabetAt(num % 26);
  }

  /** Every text that reads back as an id is exactly the label of that id. */
  lemma Alpha2IdRoundTrip(s: string)
    requires Alpha2Id(s).Some?
    ensures Id2Alpha(Alpha2Id(s).value) == s
  {
    var num := Alpha2Id(s).value;
    var k := s[0] as int - 'A' as int;
    assert 0 <= k < 26;
    assert num % 26 == k && num / 26 == |s| - 1;
    AlphabetAt(k);
    var t := Id2Alpha(num);
    assert |t| == |s|;
    forall i | 0 <= i < |s| ensures t[i] == s[i] {
      if i == 0 {
        assert t[0] as int == 'A' as int + k;
      }
    }
  }

  /** Distinct nodes get distinct labels. */
  lemma Id2AlphaInjective(a: nat, b: nat)
    requires Id2Alpha(a) == Id2Alpha(b)
    ensures a == b
  {
    Id2AlphaRoundTrip(a);
    Id2AlphaRoundTrip(b);
  }
}
