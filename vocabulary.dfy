/** The fixed class vocabulary of the document dataset: `class_to_idx` and `idx_to_class`. */
module Vocabulary {
  import opened Wrappers

  /** `class_to_idx` as a Python dict: its entries in insertion order. */
  const ClassToIdxEntries: seq<(string, int)> := [
    ("letter", 0),
    ("form", 1),
    ("email", 2),
    ("handwritten", 3),
    ("advertisement", 4),
    ("scientific report", 5),
    ("scientific publication", 6),
    ("specification", 7),
    ("file folder", 8),
    ("news article", 9),
    ("budget", 10),
    ("invoice", 11),
    ("presentation", 12),
    ("questionnaire", 13),
    ("resume", 14),
    ("memo", 15)
  ]

  /** `list(d.keys())`: the keys of a dict in insertion order. */
  function Keys(entries: seq<(string, int)>): (ks: seq<string>)
    ensures |ks| == |entries|
    ensures forall i :: 0 <= i < |entries| ==> ks[i] == entries[i].0
  {
    if entries == [] then [] else Keys(entries[..|entries| - 1]) + [entries[|entries| - 1].0]
  }

  /** `idx_to_class`. */
  const IdxToClass: seq<string> := Keys(ClassToIdxEntries)

  /** Position of the entry whose key is `name`, if any. */
  function FindEntry(entries: seq<(string, int)>, name: string): (p: Option<nat>)
    ensures p.Some? ==> p.value < |entries| && entries[p.value].0 == name
    ensures p.Some? ==> forall j :: 0 <= j < p.value ==> entries[j].0 != name
    ensures p.None? ==> forall j :: 0 <= j < |entries| ==> entries[j].0 != name
  {
    if entries == [] then None
    else if entries[0].0 == name then Some(0)
    else match FindEntry(entries[1..], name)
      case None => None
      case Some(q) => Some(q + 1)
  }

  /** `class_to_idx[name]`, with a missing key as None. */
  function ClassToIdx(name: string): Option<int> {
    match FindEntry(ClassToIdxEntries, name)
    case None => None
    case Some(p) => Some(ClassToIdxEntries[p].1)
  }

  /** `idx_to_class[idx]` with Python list indexing: an index in [-16, 0) counts from the end,
      any other index outside [0, 16) raises IndexError (None here). */
  function ClassName(idx: int): (name: Option<string>)
    ensures name.Some? <==> -16 <= idx < 16
  {
    VocabularyShape();
    if 0 <= idx < |IdxToClass| then Some(IdxToClass[idx])
    else if -|IdxToClass| <= idx < 0 then Some(IdxToClass[idx + |IdxToClass|])
    else None
  }

  /** The values of a dict are 0, 1, 2, ... in insertion order. */
  ghost predicate Enumerated(entries: seq<(string, int)>) {
    forall i :: 0 <= i < |entries| ==> entries[i].1 == i
  }

  ghost predicate DistinctKeys(entries: seq<(string, int)>) {
    forall i, j :: 0 <= i < j < |entries| ==> entries[i].0 != entries[j].0
  }

  /** With distinct keys, looking a key up finds the entry it came from. */
  lemma FindEntryOfKey(entries: seq<(string, int)>, i: nat)
    requires DistinctKeys(entries)
    requires i < |entries|
    ensures FindEntry(entries, entries[i].0) == Some(i)
  {
  }

  lemma VocabularyShape()
    ensures |ClassToIdxEntries| == 16 && |IdxToClass| == 16
    ensures Enumerated(ClassToIdxEntries)
    ensures DistinctKeys(ClassToIdxEntries)
  {
  }

  /** `idx_to_class[class_to_idx[c]] == c` for every class name `c`. */
  lemma NameRoundTrip(c: string)
    ensures ClassToIdx(c).Some? <==> c in IdxToClass
    ensures ClassToIdx(c).Some? ==>
      0 <= ClassToIdx(c).value < 16 && ClassName(ClassToIdx(c).value) == Some(c)
  {
    VocabularyShape();
    match FindEntry(ClassToIdxEntries, c)
    case None =>
    case Some(p) =>
      assert IdxToClass[p] == c;
  }

  /** `class_to_idx[idx_to_class[i]] == i` for every index `0 <= i < 16`. */
  lemma IndexRoundTrip(i: int)
    requires 0 <= i < 16
    ensures ClassName(i).Some? && ClassToIdx(ClassName(i).value) == Some(i)
  {
    VocabularyShape();
    FindEntryOfKey(ClassToIdxEntries, i);
  }

  /** `idx_to_class[idx]` raises exactly for `idx < -16` or `idx >= 16`; an index in [-16, 0)
      silently names the class of `idx + 16`, and `class_to_idx` maps the name it yields back
      to `idx` read modulo 16. */
  lemma ClassNameRange(idx: int)
    ensures ClassName(idx).None? <==> idx < -16 || idx >= 16
    ensures -16 <= idx < 0 ==> ClassName(idx) == ClassName(idx + 16)
    ensures ClassName(idx).Some? ==> ClassName(idx).value in IdxToClass
    ensures ClassName(idx).Some? ==>
      ClassToIdx(ClassName(idx).value) == Some(if idx >= 0 then idx else idx + 16)
  {
    VocabularyShape();
    if -16 <= idx < 16 {
      FindEntryOfKey(ClassToIdxEntries, if idx >= 0 then idx else idx + 16);
    }
  }
}
