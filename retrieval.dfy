/**
  Local retrieval: route a question to a knowledge-base file by the first
  keyword, in table order, that occurs in the lower-cased question.
  Reading a file is the parameter `read`, which gives the file's text or
  None when opening or decoding it fails.
 */
module Retrieval {
  import opened Wrappers
  import opened Text

  /** The folder the knowledge-base files live in. */
  const Folder: string := "knowledge_base/"

  /** The keyword index, in the order the script declares (and iterates) it. */
  const Keywords: seq<(string, string)> := [
    ("upi", "upi_info.txt"),
    ("fraud", "fraud_tips.txt"),
    ("budget", "budgeting.txt"),
    ("card", "cards.txt"),
    ("interest", "interest.txt")
  ]

  /**
    `os.path.join(FOLDER_PATH, filename)` for a relative file name, such as
    every name of the index: the folder, which already ends in '/', then the
    name. (For an absolute name `os.path.join` would drop the folder.)
   */
  function PathOf(filename: string): string {
    Folder + filename
  }

  /** Different file names give different paths. */
  lemma PathOfInjective(a: string, b: string)
    requires PathOf(a) == PathOf(b)
    ensures a == b
  {
    assert a == PathOf(a)[|Folder|..];
    assert b == PathOf(b)[|Folder|..];
  }

  /** The five keywords of the index open five different files. */
  lemma KeywordFilesDistinct(i: int, j: int)
    requires 0 <= i < j < |Keywords|
    ensures PathOf(Keywords[i].1) != PathOf(Keywords[j].1)
  {
    if PathOf(Keywords[i].1) == PathOf(Keywords[j].1) {
      PathOfInjective(Keywords[i].1, Keywords[j].1);
    }
  }

  /** Entry `k` holds the first keyword of `table` that occurs in `question`. */
  ghost predicate FirstMatch(table: seq<(string, string)>, question: string, k: int) {
    && 0 <= k < |table|
    && Contains(question, table[k].0)
    && forall j :: 0 <= j < k ==> !Contains(question, table[j].0)
  }

  /**
    The loop over the index, on an already lower-cased question. For any
    table of relative file names, the result is the read of the file of the first entry whose
    keyword occurs; with no keyword present it is None whatever `read` would
    give, so no file is consulted.
   */
  function Scan(table: seq<(string, string)>, question: string, read: string -> Option<string>): (r: Option<string>)
    ensures forall k :: FirstMatch(table, question, k) ==> r == read(PathOf(table[k].1))
    ensures (forall j :: 0 <= j < |table| ==> !Contains(question, table[j].0)) ==> r == None
    decreases |table|
  {
    if table == [] then None
    else if Contains(question, table[0].0) then read(PathOf(table[0].1))
    else
      assert forall k :: FirstMatch(table, question, k) ==> FirstMatch(table[1..], question, k - 1);
      Scan(table[1..], question, read)
  }

  /**
    `local_retrieval(question)`: the read of the first matching keyword's
    file when some keyword occurs in the lower-cased question, None (and no
    read) when none does.
   */
  function LocalRetrieval(question: string, read: string -> Option<string>): (r: Option<string>)
    ensures (exists j :: 0 <= j < |Keywords| && Contains(Lower(question), Keywords[j].0)) ==>
              exists k :: FirstMatch(Keywords, Lower(question), k) && r == read(PathOf(Keywords[k].1))
    ensures (forall j :: 0 <= j < |Keywords| ==> !Contains(Lower(question), Keywords[j].0)) ==> r == None
  {
    SomeMatchHasFirst(Keywords, Lower(question));
    Scan(Keywords, Lower(question), read)
  }

  /** Some keyword occurs, so a first one does. */
  lemma {:induction false} FirstMatchExists(table: seq<(string, string)>, question: string, j: int)
    requires 0 <= j < |table| && Contains(question, table[j].0)
    ensures exists k :: FirstMatch(table, question, k)
    decreases j
  {
    if forall i :: 0 <= i < j ==> !Contains(question, table[i].0) {
      assert FirstMatch(table, question, j);
    } else {
      var i :| 0 <= i < j && Contains(question, table[i].0);
      FirstMatchExists(table, question, i);
    }
  }

  /** When any keyword occurs, a first one in table order does. */
  lemma SomeMatchHasFirst(table: seq<(string, string)>, question: string)
    ensures (exists j :: 0 <= j < |table| && Contains(question, table[j].0)) ==>
              exists k :: FirstMatch(table, question, k)
  {
    if j :| 0 <= j < |table| && Contains(question, table[j].0) {
      FirstMatchExists(table, question, j);
    }
  }

  /**
    Only the first matching keyword's file is read: when that read fails the
    result is None, even if a later keyword also occurs and its file is readable.
   */
  lemma UnreadableFileStopsScan(table: seq<(string, string)>, question: string,
                                read: string -> Option<string>, k: int, later: int)
    requires FirstMatch(table, question, k)
    requires read(PathOf(table[k].1)) == None
    requires k < later < |table| && Contains(question, table[later].0)
    ensures Scan(table, question, read) == None
  {
  }

  // ---------------------------------------------------------------------
  // The script's own index
  // ---------------------------------------------------------------------

  /** Every keyword of the index is already lower case. */
  lemma KeywordsAreLower(k: int)
    requires 0 <= k < |Keywords|
    ensures Lower(Keywords[k].0) == Keywords[k].0
  {
    LowerUnchanged(Keywords[k].0);
  }

  /**
    A keyword wherever it sits in the (lower-cased) question, with no earlier
    keyword of the index present, yields that keyword's file.
   */
  lemma KeywordAnywhere(question: string, before: string, k: int, after: string,
                        read: string -> Option<string>)
    requires 0 <= k < |Keywords|
    requires Lower(question) == before + Keywords[k].0 + after
    requires forall j :: 0 <= j < k ==> !Contains(Lower(question), Keywords[j].0)
    ensures LocalRetrieval(question, read) == read(PathOf(Keywords[k].1))
  {
    ContainsInfix(before, Keywords[k].0, after);
    assert FirstMatch(Keywords, Lower(question), k);
  }

  /** "upi" comes first in the index, so a question that mentions it always gets its file. */
  lemma UpiWins(question: string, read: string -> Option<string>)
    requires Contains(Lower(question), "upi")
    ensures LocalRetrieval(question, read) == read("knowledge_base/upi_info.txt")
  {
    var q := Lower(question);
    assert Keywords[0].0 == "upi";
    assert FirstMatch(Keywords, q, 0);
    assert Scan(Keywords, q, read) == read(PathOf(Keywords[0].1));
    assert PathOf(Keywords[0].1) == "knowledge_base/upi_info.txt";
  }

  /** A question and its lower-cased form are routed alike. */
  lemma CaseInsensitive(question: string, read: string -> Option<string>)
    ensures LocalRetrieval(question, read) == LocalRetrieval(Lower(question), read)
  {
    LowerIdempotent(question);
  }

  /** A keyword written in any letter case, e.g. "UPI" or "Card", still matches. */
  lemma AnyCaseMatches(question: string, word: string, k: int)
    requires 0 <= k < |Keywords|
    requires Lower(word) == Keywords[k].0
    requires Contains(question, word)
    ensures Contains(Lower(question), Keywords[k].0)
  {
    LowerKeepsOccurrence(question, word);
  }

  /**
    Python lowers U+0130 (capital I with dot above) to "i" and a combining
    dot, so "UPİ" reaches the upi file.
   */
  lemma DottedCapitalI(read: string -> Option<string>)
    ensures LocalRetrieval("UP\U{130}", read) == read("knowledge_base/upi_info.txt")
  {
    var lowered := Lower("UP\U{130}");
    assert lowered == "upi\U{307}" by {
      assert "UP\U{130}" == "U" + ("P" + "\U{130}");
      LowerAppend("U", "P" + "\U{130}");
      LowerAppend("P", "\U{130}");
      assert Lower("U") == "u" && Lower("P") == "p" && Lower("\U{130}") == "i\U{307}";
    }
    assert StartsWith(lowered, "upi");
    UpiWins("UP\U{130}", read);
  }
}
