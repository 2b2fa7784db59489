/** Node identities: a printable string whose role hint is not part of equality. */
module NodeIds {

  datatype NodeId = NodeId(text: string) {
    /** What follows the last dash, or the whole text when there is none. */
    function HexSuffix(): string {
      AfterLastDash(text)
    }

    /** The source's equality on node ids: only the suffix counts. */
    predicate Same(other: NodeId) {
      HexSuffix() == other.HexSuffix()
    }

    /** A name in a manifest refers to this node by its full text or by its bare suffix. */
    predicate IsNamed(name: string) {
      name == text || name == HexSuffix()
    }
  }

  function AfterLastDash(s: string): (r: string)
    ensures '-' !in r
    ensures r == s || (|r| < |s| && s[|s| - |r| - 1] == '-' && s[|s| - |r|..] == r)
  {
    if '-' !in s then s else AfterLastDash(s[1..])
  }

  lemma {:induction false} SuffixAfterRole(role: string, hex: string)
    requires '-' !in hex
    ensures AfterLastDash(role + "-" + hex) == hex
  {
    var s := role + "-" + hex;
    if role == [] {
      assert s[1..] == hex;
    } else {
      assert s[1..] == role[1..] + "-" + hex;
      SuffixAfterRole(role[1..], hex);
      assert s[|role|] == '-' && s[1..][|role| - 1] == '-';
    }
  }

  /** Renaming a host's role, or dropping it, keeps its identity. */
  lemma RenamePreservesIdentity(role: string, newRole: string, hex: string)
    requires '-' !in hex
    ensures NodeId(role + "-" + hex).Same(NodeId(newRole + "-" + hex))
    ensures NodeId(role + "-" + hex).Same(NodeId(hex))
  {
    SuffixAfterRole(role, hex);
    SuffixAfterRole(newRole, hex);
  }
}
