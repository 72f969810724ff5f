/** The exit tests of the two proof-of-work loops. Both build the target
    `'0' * difficulty`; blockchain_simulation.py then asks
    `hash.startswith(target)`, simple_blockchain.py asks
    `hash[:difficulty] == target`. For a non-negative difficulty the two
    agree; for a negative one Python's string repetition and slicing make
    them differ. */
module ProofOfWork {
  import opened Ledger

  /** Python's `'0' * d`: d zeros, the empty string when d <= 0. */
  function ZeroTarget(d: int): (r: string)
    ensures |r| == (if d < 0 then 0 else d)
    ensures forall j :: 0 <= j < |r| ==> r[j] == '0'
  {
    if d <= 0 then "" else seq(d, _ => '0')
  }

  /** Python's `s.startswith(p)`. */
  predicate StartsWith(s: string, p: string) {
    |p| <= |s| && s[..|p|] == p
  }

  /** Python's `s[:d]`: a negative bound counts from the end, and a bound
      beyond either end is clamped to it. */
  function PrefixSlice(s: string, d: int): (r: string)
    ensures |r| <= |s| && r == s[..|r|]
    ensures |r| == if d >= |s| then |s| else if d >= 0 then d else if |s| + d >= 0 then |s| + d else 0
  {
    if d >= 0 then (if d <= |s| then s[..d] else s)
    else if |s| + d >= 0 then s[..|s| + d] else ""
  }

  /** h begins with n '0' characters. */
  predicate LeadingZeros(h: string, n: nat) {
    n <= |h| && forall j :: 0 <= j < n ==> h[j] == '0'
  }

  /** The loop exit test of `mine_block` in blockchain_simulation.py. */
  predicate StartsWithTarget(h: string, difficulty: int) {
    StartsWith(h, ZeroTarget(difficulty))
  }

  /** The loop exit test of `mine_block` in simple_blockchain.py. */
  predicate SliceTarget(h: string, difficulty: int) {
    PrefixSlice(h, difficulty) == ZeroTarget(difficulty)
  }

  /** `hash.startswith('0' * d)` holds exactly when d <= 0 or the hash
      begins with d zeros. */
  lemma StartsWithTargetMeaning(h: string, d: int)
    ensures StartsWithTarget(h, d) <==> d <= 0 || LeadingZeros(h, d)
  {
    var z := ZeroTarget(d);
    if d > 0 && LeadingZeros(h, d) {
      assert h[..|z|] == z;
    }
    if d > 0 && StartsWithTarget(h, d) {
      forall j | 0 <= j < d
        ensures h[j] == '0'
      {
        assert h[..|z|][j] == z[j];
      }
    }
  }

  /** `hash[:d] == '0' * d` holds exactly when d is 0, when d <= -|h| (the
      slice and the target are both empty), or when 0 < d <= |h| and the
      hash begins with d zeros. For -|h| < d < 0 the slice is non-empty and
      the target empty, so the test never passes; for d > |h| the slice is
      too short. */
  lemma SliceTargetMeaning(h: string, d: int)
    ensures SliceTarget(h, d) <==> d == 0 || d <= -|h| || (0 < d <= |h| && LeadingZeros(h, d))
  {
    var p, z := PrefixSlice(h, d), ZeroTarget(d);
    if 0 < d <= |h| {
      assert p == h[..d];
      if LeadingZeros(h, d) {
        assert p == z;
      }
      if p == z {
        forall j | 0 <= j < d
          ensures h[j] == '0'
        {
          assert h[..d][j] == z[j];
        }
      }
    } else if d > |h| || -|h| < d < 0 {
      assert |p| != |z|;
    }
  }

  /** On a 64-character digest the slice test of simple_blockchain.py can
      never pass when the difficulty exceeds 64 or lies in -63..-1: its
      `mine_block` then loops for ever. */
  lemma SliceTargetUnreachable(h: Digest, d: int)
    requires d > 64 || -64 < d < 0
    ensures !SliceTarget(h, d)
  {
    SliceTargetMeaning(h, d);
  }

  /** For a non-negative difficulty the two exit tests are the same test. */
  lemma ExitTestsAgree(h: string, d: nat)
    ensures SliceTarget(h, d) <==> StartsWithTarget(h, d)
  {
    SliceTargetMeaning(h, d);
    StartsWithTargetMeaning(h, d);
  }

  /** For a difficulty in -63..-1 they differ on every digest: the
      `startswith` test passes at once, the slice test never does. */
  lemma ExitTestsDisagreeOnNegative(h: Digest, d: int)
    requires -64 < d < 0
    ensures StartsWithTarget(h, d) && !SliceTarget(h, d)
  {
    SliceTargetUnreachable(h, d);
  }
}
