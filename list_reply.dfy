/**
 * The LIST reply of the file server: the JSON form of every listed
 * document, joined by ',' inside '[' and ']', assembled in a heap buffer
 * that grows by one document at a time, followed by ']' and a '\0'.
 */
module ListReply {
  import opened Wrappers
  import opened Text

  /** The reply text for the documents that made it into the buffer. */
  function ListText(docs: seq<string>): (r: string)
    ensures |r| >= 2 && r[0] == '[' && r[|r| - 1] == ']'
  {
    if docs == [] then "[]" else "[" + Join(docs, ",") + "]"
  }

  /** The documents a cursor run keeps: a NULL JSON form or a failed (re)allocation skips one. */
  function Kept(jsons: seq<Option<string>>, allocs: seq<bool>): (r: seq<string>)
    requires |allocs| == |jsons|
    ensures |r| <= |jsons|
  {
    if |jsons| == 0 then []
    else
      var init := Kept(jsons[..|jsons| - 1], allocs[..|jsons| - 1]);
      var last := jsons[|jsons| - 1];
      if last.Some? && allocs[|jsons| - 1] then init + [last.value] else init
  }

  function SumLengths(docs: seq<string>): nat {
    if |docs| == 0 then 0 else SumLengths(docs[..|docs| - 1]) + |docs[|docs| - 1]|
  }

  /** The joined text is every document plus one separator between each two. */
  lemma {:induction false} JoinLength(docs: seq<string>)
    requires docs != []
    ensures |Join(docs, ",")| == SumLengths(docs) + |docs| - 1
    decreases |docs|
  {
    if |docs| > 1 {
      JoinLength(docs[..|docs| - 1]);
    }
  }

  /** Join grows by the separator and the new part. */
  lemma JoinSnoc(docs: seq<string>, d: string)
    requires docs != []
    ensures Join(docs + [d], ",") == Join(docs, ",") + "," + d
  {
    assert (docs + [d])[..|docs|] == docs;
  }

  // ---------------------------------------------------------------------
  // The buffer sizes as written

  /** total_len once the documents of the given lengths have been appended: "[" and the joined text. */
  function OpenLength(lens: seq<nat>): nat
    requires lens != []
  {
    if |lens| == 1 then 1 + lens[0] else OpenLength(lens[..|lens| - 1]) + 1 + lens[|lens| - 1]
  }

  /** The buffer size as written: malloc(len + 3) for the first document, realloc(total_len + len + 2) after. */
  function CapacityAsWritten(lens: seq<nat>): nat
    requires lens != []
  {
    if |lens| == 1 then lens[0] + 3 else OpenLength(lens[..|lens| - 1]) + lens[|lens| - 1] + 2
  }

  /** The bytes the closing code writes: the open text, ']' and the terminating '\0'. */
  function BytesWritten(lens: seq<nat>): nat
    requires lens != []
  {
    OpenLength(lens) + 2
  }

  /** One document fits exactly; from the second document on, the '\0' lands one byte past the buffer. */
  lemma CapacityShortByOne(lens: seq<nat>)
    requires lens != []
    ensures |lens| == 1 ==> CapacityAsWritten(lens) == BytesWritten(lens)
    ensures |lens| >= 2 ==> CapacityAsWritten(lens) + 1 == BytesWritten(lens)
  {
  }

  /** Listing "a" and "b" writes 6 bytes ("[a,b]" and '\0') into a 5-byte buffer. */
  lemma TwoDocumentOverflow()
    ensures CapacityAsWritten([1, 1]) == 5 && BytesWritten([1, 1]) == 6
    ensures BytesWritten([1, 1]) == |ListText(["a", "b"])| + 1
  {
    assert [1, 1][..1] == [1];
    assert Join(["a", "b"], ",") == "a,b" by {
      assert ["a", "b"][..1] == ["a"];
    }
  }

  // ---------------------------------------------------------------------
  // The buffer with corrected sizes

  /** Copies `s` into `b` from index `at`, leaving the cells before `at` alone. */
  method CopyInto(b: array<char>, at: nat, s: string)
    requires at + |s| <= b.Length
    modifies b
    ensures b[..at] == old(b[..at])
    ensures b[at..at + |s|] == s
  {
    var i := 0;
    while i < |s|
      invariant 0 <= i <= |s|
      invariant b[..at] == old(b[..at])
      invariant b[at..at + i] == s[..i]
    {
      b[at + i] := s[i];
      i := i + 1;
      assert b[at..at + i] == b[at..at + i - 1] + [b[at + i - 1]];
    }
  }

  /** realloc's copy: the first `n` cells of `a` moved into `b`. */
  method CopyPrefix(a: array<char>, b: array<char>, n: nat)
    requires n <= a.Length && n <= b.Length && a != b
    modifies b
    ensures b[..n] == a[..n]
  {
    var i := 0;
    while i < n
      invariant 0 <= i <= n
      invariant b[..i] == a[..i]
    {
      b[i] := a[i];
      i := i + 1;
    }
  }

  /** The first document: malloc(len + 3), then "[" and the document. */
  method FirstBuffer(s: string) returns (b: array<char>)
    ensures fresh(b) && b.Length == |s| + 3
    ensures b[..1 + |s|] == "[" + s
  {
    b := new char[|s| + 3];
    b[0] := '[';
    CopyInto(b, 1, s);
    assert b[..1 + |s|] == b[..1] + b[1..1 + |s|];
  }

  /** A later document: the corrected realloc, the ',' and the document after the first `total` cells. */
  method GrownBuffer(a: array<char>, total: nat, s: string) returns (b: array<char>)
    requires total <= a.Length
    ensures fresh(b) && b.Length == total + |s| + 3
    ensures b[..total + 1 + |s|] == a[..total] + [','] + s
  {
    b := new char[total + |s| + 3];
    CopyPrefix(a, b, total);
    b[total] := ',';
    CopyInto(b, total + 1, s);
    assert b[..total + 1 + |s|] == b[..total] + [','] + b[total + 1..total + 1 + |s|] by {
      assert b[..total + 1] == b[..total] + [b[total]];
    }
  }

  /** The growing list buffer, sized so that the closing ']' and '\0' always fit. */
  class ListBuffer {
    var buf: array<char>
    var total: nat
    ghost var docs: seq<string>

    /** The first `total` cells hold "[" and the joined documents, with two cells to spare. */
    ghost predicate Valid()
      reads this, buf
    {
      && (total == 0 <==> docs == [])
      && (docs != [] ==> total + 2 <= buf.Length && buf[..total] == "[" + Join(docs, ","))
    }

    constructor()
      ensures Valid() && docs == [] && fresh(buf)
    {
      buf := new char[0];
      total := 0;
      docs := [];
    }

    /** One cursor step: a missing JSON form or a failed allocation leaves the buffer as it was. */
    method Add(json: Option<string>, allocates: bool)
      requires Valid()
      modifies this
      ensures Valid() && (buf == old(buf) || fresh(buf))
      ensures docs == if json.Some? && allocates then old(docs) + [json.value] else old(docs)
    {
      if json.None? || !allocates {
        return;
      }
      var s := json.value;
      if total == 0 {
        var b := FirstBuffer(s);
        buf, total, docs := b, 1 + |s|, [s];
      } else {
        var b := GrownBuffer(buf, total, s);
        JoinSnoc(docs, s);
        buf, total, docs := b, total + 1 + |s|, docs + [s];
      }
    }

    /** The closing code: ']' and '\0' after the documents, or "[]" when there are none. */
    method Finish() returns (reply: string, filesize: nat)
      requires Valid()
      modifies buf
      ensures reply == ListText(docs) && filesize == |reply|
    {
      if total == 0 {
        return "[]", 2;
      }
      var before := buf[..total];
      buf[total] := ']';
      buf[total + 1] := '\0';
      assert buf[..total] == before;
      assert buf[..total + 1] == buf[..total] + [buf[total]];
      reply := buf[..total + 1];
      filesize := total + 1;
    }
  }

  /** handle_list_request over the cursor's documents, with the corrected buffer sizes. */
  method ListResponse(jsons: seq<Option<string>>, allocs: seq<bool>) returns (reply: string, filesize: nat)
    requires |allocs| == |jsons|
    ensures reply == ListText(Kept(jsons, allocs))
    ensures filesize == |reply|
  {
    var list := new ListBuffer();
    var i := 0;
    while i < |jsons|
      invariant 0 <= i <= |jsons|
      invariant list.Valid() && fresh(list) && fresh(list.buf)
      invariant list.docs == Kept(jsons[..i], allocs[..i])
    {
      assert jsons[..i + 1][..i] == jsons[..i];
      assert allocs[..i + 1][..i] == allocs[..i];
      list.Add(jsons[i], allocs[i]);
      i := i + 1;
    }
    assert jsons[..i] == jsons && allocs[..i] == allocs;
    reply, filesize := list.Finish();
  }

  /** The announced size counts the brackets, every document and the separators. */
  lemma ReplyLength(docs: seq<string>)
    ensures |ListText(docs)| == if docs == [] then 2 else SumLengths(docs) + |docs| + 1
  {
    if docs != [] {
      JoinLength(docs);
    }
  }
}
