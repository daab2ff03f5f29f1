/** The assign operator's policy tags and what each selects: whether the active layer
    is cleared first, and whether only selected timeline markers are copied. */
module Policy {
  import opened Wrappers

  datatype SyncPolicy = SyncPolicy(clear: bool, select: bool)

  /** The items of the assign operator's enum, in menu order. */
  const AssignTags: seq<string> := ["assign_all", "assign_selected", "append_all", "append_selected"]

  /** The tag of the load operator that replaces the timeline; every other tag appends. */
  const ReplaceTag: string := "replace"

  predicate HasPrefix(s: string, p: string) {
    |p| <= |s| && s[..|p|] == p
  }

  predicate HasSuffix(s: string, q: string) {
    |q| <= |s| && s[|s| - |q|..] == q
  }

  /** The assign operator's dispatch; an unknown tag calls nothing. The tag's verb
      decides clearing ("assign" clears, "append" keeps) and its scope decides
      selection ("_selected" copies only selected markers). */
  function AssignPolicy(tag: string): (p: Option<SyncPolicy>)
    ensures p.Some? <==> tag in AssignTags
    ensures p.Some? ==> (p.value.clear <==> HasPrefix(tag, "assign"))
    ensures p.Some? ==> (p.value.clear <==> !HasPrefix(tag, "append"))
    ensures p.Some? ==> (p.value.select <==> HasSuffix(tag, "_selected"))
  {
    if tag == "assign_all" then Some(SyncPolicy(true, false))
    else if tag == "assign_selected" then Some(SyncPolicy(true, true))
    else if tag == "append_all" then Some(SyncPolicy(false, false))
    else if tag == "append_selected" then Some(SyncPolicy(false, true))
    else None
  }

  /** The menu item that selects policy p. */
  function AssignTag(p: SyncPolicy): (tag: string)
    ensures tag in AssignTags
  {
    match p
    case SyncPolicy(true, false) => AssignTags[0]
    case SyncPolicy(true, true) => AssignTags[1]
    case SyncPolicy(false, false) => AssignTags[2]
    case SyncPolicy(false, true) => AssignTags[3]
  }

  /** The four tags and the four policies are in one-to-one correspondence. */
  lemma AssignPolicyBijective(p: SyncPolicy, tag: string)
    ensures AssignPolicy(AssignTag(p)) == Some(p)
    ensures tag in AssignTags ==> AssignTag(AssignPolicy(tag).value) == tag
  {
  }
}
