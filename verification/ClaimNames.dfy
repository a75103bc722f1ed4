/** The two branch names a claim lives under and why they never collide
    (noodles.py:4859-4861, noodles.py:4924-4931, claim_contract.py:73-75). */
module ClaimNames {
  import opened Text

  predicate IsHex(c: char) {
    '0' <= c <= '9' || 'a' <= c <= 'f'
  }

  /** A provider object id, as every ref readback requires it. */
  predicate IsHead(h: string) {
    |h| == 40 && forall k :: 0 <= k < |h| ==> IsHex(h[k])
  }

  function Dashed(repo: string): (r: string)
    ensures |r| == |repo|
  {
    seq(|repo|, k requires 0 <= k < |repo| => if repo[k] == '/' then '-' else repo[k])
  }

  function ExecuteBranch(repo: string, number: nat): string {
    Dashed(repo) + "-" + Decimal(number) + "-0-execute"
  }

  function SalvageBranch(number: nat, head: string): string {
    "progress-" + Decimal(number) + "-" + if |head| >= 12 then head[..12] else head
  }

  lemma ExecuteBranchInjective(repo: string, m: nat, n: nat)
    requires ExecuteBranch(repo, m) == ExecuteBranch(repo, n)
    ensures m == n
  {
    Framed(Dashed(repo) + "-", Decimal(m), "-0-execute", Decimal(n), "-0-execute");
    DecimalInjective(m, n);
  }

  lemma SalvageBranchInjective(m: nat, g: string, n: nat, h: string)
    requires IsHead(g) && IsHead(h) && SalvageBranch(m, g) == SalvageBranch(n, h)
    ensures m == n && g[..12] == h[..12]
  {
    var s, t := "-" + g[..12], "-" + h[..12];
    assert SalvageBranch(m, g) == "progress-" + Decimal(m) + s;
    assert SalvageBranch(n, h) == "progress-" + Decimal(n) + t;
    Framed("progress-", Decimal(m), s, Decimal(n), t);
    assert g[..12] == s[1..] && h[..12] == t[1..];
    DecimalInjective(m, n);
  }

  /** The letter before the last is `t` in an execute branch and a hex digit in a salvage branch. */
  lemma SalvageIsNoExecuteBranch(n: nat, head: string, repo: string, m: nat)
    requires IsHead(head)
    ensures SalvageBranch(n, head) != ExecuteBranch(repo, m)
  {
    var a, b := SalvageBranch(n, head), ExecuteBranch(repo, m);
    assert a[|a| - 2] == head[10] && IsHex(head[10]);
    assert b[|b| - 2] == "-0-execute"[8] == 't';
  }

  /** What stands between the prefix and the suffix of an execute branch. */
  function Middle(repo: string, name: string): string
    requires |name| > |Dashed(repo)| + 11
  {
    name[|Dashed(repo)| + 1..|name| - 10]
  }

  /** The claim pattern `^refs/heads/<prefix>-([1-9][0-9]*)-0-execute$`. */
  predicate IsExecuteRef(repo: string, name: string) {
    var prefix, suffix := Dashed(repo) + "-", "-0-execute";
    && |name| > |prefix| + |suffix|
    && name[..|prefix|] == prefix && name[|name| - |suffix|..] == suffix
    && IsNumberText(Middle(repo, name))
  }

  function ClaimNumber(repo: string, name: string): nat
    requires IsExecuteRef(repo, name)
  {
    Value(Middle(repo, name))
  }

  lemma {:induction false} DecimalHasNoLeadingZero(n: nat)
    requires n > 0
    ensures IsNumberText(Decimal(n))
  {
    if n < 10 {
    } else {
      DecimalHasNoLeadingZero(n / 10);
    }
  }

  lemma ClaimNumberOfBranch(repo: string, n: nat)
    requires n > 0
    ensures IsExecuteRef(repo, ExecuteBranch(repo, n)) && ClaimNumber(repo, ExecuteBranch(repo, n)) == n
  {
    var name := ExecuteBranch(repo, n);
    DecimalHasNoLeadingZero(n);
    ValueOfDecimal(n);
    assert name[..|Dashed(repo)| + 1] == Dashed(repo) + "-";
    assert name[|name| - 10..] == "-0-execute";
    assert name[|Dashed(repo)| + 1..|name| - 10] == Decimal(n);
  }

  lemma {:induction false} DecimalOfValue(s: string)
    requires IsNumberText(s)
    ensures Value(s) > 0 && Decimal(Value(s)) == s
  {
    var d := s[|s| - 1];
    assert IsDigit(d);
    if |s| == 1 {
      assert s[..0] == [];
      assert Value(s) == d as int - '0' as int;
      assert s == [d];
    } else {
      DecimalOfValue(s[..|s| - 1]);
      assert Value(s) / 10 == Value(s[..|s| - 1]) && Value(s) % 10 == d as int - '0' as int;
      assert s == s[..|s| - 1] + [d];
    }
  }

  /** Every ref the claim pattern matches is the execute branch of the number it carries. */
  lemma BranchOfClaimNumber(repo: string, name: string)
    requires IsExecuteRef(repo, name)
    ensures ClaimNumber(repo, name) > 0 && ExecuteBranch(repo, ClaimNumber(repo, name)) == name
  {
    var prefix, suffix := Dashed(repo) + "-", "-0-execute";
    var middle := Middle(repo, name);
    DecimalOfValue(middle);
    assert name == prefix + middle + suffix;
  }
}
