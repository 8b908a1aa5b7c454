/** The `unique_snp_key` join key, derived two ways: from an AF-gap row's
    CHROM and POS, and from an intersection row's `snp_id`. */
module Keys {
  import opened Text

  /** `str(CHROM) + ':' + str(POS)`. */
  function AfKey(chrom: string, pos: nat): string
  {
    chrom + ":" + DecimalString(pos)
  }

  /** An AF-gap key splits on `:` back into its CHROM and its decimal POS, as
      long as CHROM holds no `:`. */
  lemma AfKeySplit(chrom: string, pos: nat)
    requires ':' !in chrom
    ensures Split(AfKey(chrom, pos), ':') == [chrom, DecimalString(pos)]
  {
    SplitPair(chrom, DecimalString(pos), ':');
  }

  /** `':'.join(snp_id.split(':')[:2])`: the first two `:`-separated pieces. */
  function IntersectKey(snpId: string): string
  {
    var parts := Split(snpId, ':');
    Join(parts[..if |parts| < 2 then |parts| else 2], ":")
  }

  /** Where the key of `s` ends, by position: at the second `:`, or at the end of
      `s` when it has fewer than two. */
  function KeyEnd(s: string): (e: nat)
    ensures e <= |s|
  {
    var i := IndexOf(s, ':');
    if i == |s| then |s| else i + 1 + IndexOf(s[i + 1..], ':')
  }

  /** The first two pieces of an id with two or more `:`. */
  lemma FirstTwoPieces(s: string, i: nat, j: nat)
    requires i < |s| && i == IndexOf(s, ':')
    requires j < |s[i + 1..]| && j == IndexOf(s[i + 1..], ':')
    ensures |Split(s, ':')| >= 2
    ensures Split(s, ':')[..2] == [s[..i], s[i + 1..][..j]]
  {
    var t := s[i + 1..];
    SplitAtFirst(s, ':');
    SplitAtFirst(t, ':');
    var parts := Split(s, ':');
    assert parts == [s[..i]] + Split(t, ':');
    assert Split(t, ':')[0] == t[..j];
  }

  /** The key of an id with two or more `:` ends just before the second one. */
  lemma KeyOfLongId(s: string, i: nat, j: nat)
    requires i < |s| && i == IndexOf(s, ':')
    requires j < |s[i + 1..]| && j == IndexOf(s[i + 1..], ':')
    ensures IntersectKey(s) == s[..i + 1 + j]
  {
    var t := s[i + 1..];
    FirstTwoPieces(s, i, j);
    JoinTwo(s[..i], t[..j], ":");
    assert t[..j] == s[i + 1..i + 1 + j];
    assert s[..i + 1 + j] == s[..i] + [s[i]] + s[i + 1..i + 1 + j];
  }

  /** The key of an id with exactly one `:` is the whole id. */
  lemma KeyOfPairId(s: string, i: nat)
    requires i < |s| && i == IndexOf(s, ':')
    requires IndexOf(s[i + 1..], ':') == |s[i + 1..]|
    ensures IntersectKey(s) == s
  {
    var t := s[i + 1..];
    SplitAtFirst(s, ':');
    assert ':' !in t;
    SplitNoSep(t, ':');
    var parts := Split(s, ':');
    assert parts == [s[..i], t];
    assert parts[..2] == parts;
    JoinTwo(s[..i], t, ":");
    assert s == s[..i] + [s[i]] + t;
  }

  /** The key of an id without `:` is the whole id. */
  lemma KeyOfPlainId(s: string)
    requires IndexOf(s, ':') == |s|
    ensures IntersectKey(s) == s
  {
    SplitAtFirst(s, ':');
    assert Split(s, ':')[..1] == [s];
  }

  /** The intersection key is the prefix of `snp_id` up to (not including) its
      second `:`, or all of `snp_id` when it has fewer than two. */
  lemma IntersectKeyIsPrefix(s: string)
    ensures IntersectKey(s) == s[..KeyEnd(s)]
    ensures KeyEnd(s) < |s| ==> s[KeyEnd(s)] == ':'
  {
    var i := IndexOf(s, ':');
    if i == |s| {
      KeyOfPlainId(s);
    } else {
      var j := IndexOf(s[i + 1..], ':');
      if j == |s[i + 1..]| {
        KeyOfPairId(s, i);
      } else {
        KeyOfLongId(s, i, j);
        assert s[i + 1 + j] == s[i + 1..][j];
      }
    }
  }

  /** Deriving the key again changes nothing: a key has at most one `:`. */
  lemma IntersectKeyIdempotent(s: string)
    ensures IntersectKey(IntersectKey(s)) == IntersectKey(s)
  {
    var k := IntersectKey(s);
    IntersectKeyIsPrefix(s);
    IntersectKeyIsPrefix(k);
    var i := IndexOf(s, ':');
    if i < |s| {
      var t := s[i + 1..];
      var j := IndexOf(t, ':');
      assert IndexOf(k, ':') == i;
      assert k[i + 1..] == t[..j];
      assert IndexOf(k[i + 1..], ':') == j;
    } else {
      assert k == s;
    }
  }

  /** On a `snp_id` of the form `CHROM:POS:rest` or `CHROM:POS` the intersection
      key is exactly the AF-gap key of that CHROM and POS, so the two tables meet
      on the join. */
  lemma IntersectKeyMatchesAfKey(chrom: string, pos: nat, rest: string)
    requires ':' !in chrom
    ensures IntersectKey(AfKey(chrom, pos) + ":" + rest) == AfKey(chrom, pos)
    ensures IntersectKey(AfKey(chrom, pos)) == AfKey(chrom, pos)
  {
    var d := DecimalString(pos);
    assert ':' !in d;
    assert AfKey(chrom, pos) + ":" + rest == chrom + [':'] + (d + [':'] + rest);
    SplitAfter(chrom, d + [':'] + rest, ':');
    SplitAfter(d, rest, ':');
    assert Split(AfKey(chrom, pos) + ":" + rest, ':')[..2] == [chrom, d];
    JoinTwo(chrom, d, ":");
    SplitAfter(chrom, d, ':');
    SplitNoSep(d, ':');
    assert Split(AfKey(chrom, pos), ':') == [chrom, d];
    assert Split(AfKey(chrom, pos), ':')[..2] == [chrom, d];
  }

  /** Different (CHROM, POS) pairs never share an AF-gap key: `str(POS)` holds
      no `:`, so the last `:` of the key separates CHROM from POS. */
  lemma AfKeyInjective(c1: string, p1: nat, c2: string, p2: nat)
    requires AfKey(c1, p1) == AfKey(c2, p2)
    ensures c1 == c2 && p1 == p2
  {
    var d1, d2 := DecimalString(p1), DecimalString(p2);
    assert ':' !in d1 && ':' !in d2;
    SplitAtLast(c1, d1, c2, d2, ':');
    ParseDecimalString(p1);
    ParseDecimalString(p2);
  }
}
