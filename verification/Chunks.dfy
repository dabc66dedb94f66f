/** Cutting a long list of index names into lists whose CSV form stays short. */
module Chunks {

  const LIMIT := 3072

  /** The names of a CSV string, as str.split(",") gives them: the empty string has one empty name. */
  function Split(s: string): (r: seq<string>)
    ensures r != []
  {
    if s == "" then [""]
    else
      var rest := Split(s[1..]);
      if s[0] == ',' then [""] + rest else [[s[0]] + rest[0]] + rest[1..]
  }

  function Join(names: seq<string>): string {
    if names == [] then ""
    else if |names| == 1 then names[0]
    else Join(names[..|names| - 1]) + "," + names[|names| - 1]
  }

  predicate CommaFree(name: string) {
    ',' !in name
  }

  predicate AllCommaFree(names: seq<string>) {
    forall n :: n in names ==> CommaFree(n)
  }

  predicate NonEmptyNames(names: seq<string>) {
    forall n :: n in names ==> n != ""
  }

  lemma {:induction false} SplitWord(s: string)
    requires CommaFree(s)
    ensures Split(s) == [s]
  {
    if s != "" {
      SplitWord(s[1..]);
      assert [s[0]] + s[1..] == s;
    }
  }

  /** A comma separates what comes before it from a last name that has none. */
  lemma {:induction false} SplitAtComma(s: string, last: string)
    requires CommaFree(last)
    ensures Split(s + "," + last) == Split(s) + [last]
  {
    var t := s + "," + last;
    if s == "" {
      assert t[1..] == last;
      SplitWord(last);
    } else {
      assert t[1..] == s[1..] + "," + last && t[0] == s[0];
      SplitAtComma(s[1..], last);
    }
  }

  /** Splitting undoes joining. */
  lemma {:induction false} SplitJoin(names: seq<string>)
    requires names != [] && AllCommaFree(names)
    ensures Split(Join(names)) == names
    decreases |names|
  {
    var l := |names| - 1;
    if l == 0 {
      SplitWord(names[0]);
      assert names == [names[0]];
    } else {
      SplitJoin(names[..l]);
      SplitAtComma(Join(names[..l]), names[l]);
      assert names[..l] + [names[l]] == names;
    }
  }

  lemma {:induction false} SplitIsCommaFree(s: string)
    ensures AllCommaFree(Split(s))
  {
    if s != "" {
      SplitIsCommaFree(s[1..]);
      var rest := Split(s[1..]);
      assert rest[0] in rest;
      assert forall n :: n in Split(s) ==> n == "" || n in rest || (s[0] != ',' && n == [s[0]] + rest[0]);
    }
  }

  function Flatten(chunks: seq<seq<string>>): seq<string> {
    if chunks == [] then [] else Flatten(chunks[..|chunks| - 1]) + chunks[|chunks| - 1]
  }

  lemma FlattenSnoc(chunks: seq<seq<string>>, c: seq<string>)
    ensures Flatten(chunks + [c]) == Flatten(chunks) + c
  {
    assert (chunks + [c])[..|chunks|] == chunks;
  }

  lemma {:induction false} FlattenIsCommaFree(chunks: seq<seq<string>>)
    requires forall c :: c in chunks ==> AllCommaFree(c)
    ensures AllCommaFree(Flatten(chunks))
    decreases |chunks|
  {
    if chunks == [] {
    } else {
      FlattenIsCommaFree(chunks[..|chunks| - 1]);
      assert chunks[|chunks| - 1] in chunks;
    }
  }

  /** Only one empty name, or none, joins to the empty string. */
  lemma JoinEmpty(names: seq<string>)
    requires names != [] && Join(names) == ""
    ensures names == [""]
  {
  }

  /** The size of a chunk before its last name was added was still under the limit. */
  predicate Fits(chunk: seq<string>) {
    |chunk| > 1 ==> |Join(chunk[..|chunk| - 1])| < 3072
  }

  /** Every chunk is a join of names, full unless it is the last, and opened for its last name. */
  ghost predicate ChunksOk(chunks: seq<seq<string>>) {
    forall i :: 0 <= i < |chunks| ==>
      chunks[i] != [] && Fits(chunks[i]) && (i < |chunks| - 1 ==> |Join(chunks[i])| >= 3072)
  }

  /** The open chunk after the given names. */
  function Open(names: seq<string>): string {
    if names == [] then ""
    else
      var before, last := Open(names[..|names| - 1]), names[|names| - 1];
      if before == "" || |before| >= LIMIT then last else before + "," + last
  }

  /** Nothing is lost before position `i`: no earlier name found an open chunk that was the empty string. */
  predicate KeptUpTo(names: seq<string>, i: nat) {
    forall k :: 0 < k < i && k <= |names| ==> Open(names[..k]) != ""
  }

  predicate Kept(names: seq<string>) {
    KeptUpTo(names, |names|)
  }

  lemma OneMoreName(names: seq<string>, i: nat)
    requires i < |names|
    ensures Open(names[..i + 1]) ==
            var before := Open(names[..i]);
            if before == "" || |before| >= LIMIT then names[i] else before + "," + names[i]
    ensures KeptUpTo(names, i + 1) <==> KeptUpTo(names, i) && (i == 0 || Open(names[..i]) != "")
  {
    assert names[..i + 1][..i] == names[..i];
  }

  lemma {:induction false} NonEmptyNamesAreKept(names: seq<string>, i: nat)
    requires NonEmptyNames(names) && i <= |names|
    ensures KeptUpTo(names, i) && (i > 0 ==> Open(names[..i]) != "")
  {
    if i == 0 {
    } else {
      NonEmptyNamesAreKept(names, i - 1);
      OneMoreName(names, i - 1);
      assert names[i - 1] in names;
    }
  }

  /** What the closed chunks and the parts of the open one hold of the first `i` names. */
  ghost predicate Progress(indices: seq<string>, chunks: seq<seq<string>>, parts: seq<string>, i: nat)
    requires i <= |indices|
  {
    && AllCommaFree(parts) && Fits(parts) && (forall c :: c in chunks ==> c != [] && Fits(c) && |Join(c)| >= LIMIT)
    && if KeptUpTo(indices, i) then Flatten(chunks) + parts == indices[..i] else |Flatten(chunks)| + |parts| < i
  }

  /** One more name for the open chunk, which loses its empty beginning. */
  lemma NameAdded(indices: seq<string>, chunks: seq<seq<string>>, parts: seq<string>, i: nat)
    requires i < |indices| && CommaFree(indices[i]) && Progress(indices, chunks, parts, i)
    requires Open(indices[..i]) == Join(parts) && |Join(parts)| < LIMIT && (parts == [] <==> i == 0)
    ensures var next := if Join(parts) == "" then [indices[i]] else parts + [indices[i]];
            Progress(indices, chunks, next, i + 1)
  {
    OneMoreName(indices, i);
    assert indices[..i + 1] == indices[..i] + [indices[i]];
    if i == 0 {
      assert Flatten(chunks) == [] by { assert |Flatten(chunks) + parts| == 0; }
    } else if Join(parts) == "" {
      JoinEmpty(parts);
      assert |Flatten(chunks)| + |parts| <= i;
    } else {
      assert (parts + [indices[i]])[..|parts|] == parts;
      assert Flatten(chunks) + (parts + [indices[i]]) == Flatten(chunks) + parts + [indices[i]];
    }
  }

  /** A full chunk is closed: its names go to the list as they are. */
  lemma ChunkClosed(indices: seq<string>, chunks: seq<seq<string>>, parts: seq<string>, i: nat)
    requires i < |indices| && CommaFree(indices[i]) && Progress(indices, chunks, parts, i)
    requires Open(indices[..i]) == Join(parts) && |Join(parts)| >= LIMIT && parts != []
    ensures Split(Join(parts)) == parts && Progress(indices, chunks + [parts], [indices[i]], i + 1)
  {
    OneMoreName(indices, i);
    SplitJoin(parts);
    FlattenSnoc(chunks, parts);
    assert indices[..i + 1] == indices[..i] + [indices[i]];
    assert |Flatten(chunks + [parts])| == |Flatten(chunks)| + |parts|;
  }

  /**
   * The chunks flatten to the list again exactly when the list is not empty, no name contains a comma and
   * no empty name opens a chunk before another name. If no name contains a comma, all chunks but the last
   * have at least LIMIT characters, and none exceeds LIMIT by more than its last name.
   */
  method ChunkIndexList(indices: seq<string>) returns (chunks: seq<seq<string>>)
    ensures Flatten(chunks) == indices <==> indices != [] && AllCommaFree(indices) && Kept(indices)
    ensures AllCommaFree(indices) ==> ChunksOk(chunks)
    ensures indices == [] ==> chunks == [[""]]
    ensures AllCommaFree(Flatten(chunks))
  {
    chunks := [];
    var chunk := "";
    ghost var parts: seq<string> := [];
    for i := 0 to |indices|
      invariant chunk == Join(parts) == Open(indices[..i]) && (parts == [] <==> i == 0)
      invariant i == 0 ==> chunks == []
      invariant forall c :: c in chunks ==> AllCommaFree(c)
      invariant AllCommaFree(indices) ==> Progress(indices, chunks, parts, i)
    {
      var index := indices[i];
      assert index in indices;
      OneMoreName(indices, i);
      if |chunk| < LIMIT {
        if AllCommaFree(indices) { NameAdded(indices, chunks, parts, i); }
        if chunk == "" {
          chunk, parts := index, [index];
        } else {
          assert (parts + [index])[..|parts|] == parts;
          chunk, parts := chunk + "," + index, parts + [index];
        }
      } else {
        SplitIsCommaFree(chunk);
        if AllCommaFree(indices) { ChunkClosed(indices, chunks, parts, i); }
        chunks := chunks + [Split(chunk)];
        chunk, parts := index, [index];
      }
    }
    SplitIsCommaFree(chunk);
    LastChunk(indices, chunks, parts);
    chunks := chunks + [Split(chunk)];
    FlattenIsCommaFree(chunks);
  }

  lemma LastChunk(indices: seq<string>, chunks: seq<seq<string>>, parts: seq<string>)
    requires parts == [] <==> indices == []
    requires indices == [] ==> chunks == []
    requires AllCommaFree(indices) ==> Progress(indices, chunks, parts, |indices|)
    ensures var all := chunks + [Split(Join(parts))];
            && (AllCommaFree(indices) ==> ChunksOk(all) && (Flatten(all) == indices <==> indices != [] && Kept(indices)))
            && (indices == [] ==> all == [[""]])
  {
    var all := chunks + [Split(Join(parts))];
    FlattenSnoc(chunks, Split(Join(parts)));
    if indices == [] {
      assert Split("") == [""];
    } else if AllCommaFree(indices) {
      SplitJoin(parts);
      assert indices[..|indices|] == indices;
      assert forall c :: c in all ==> c == parts || c in chunks;
    }
  }

  /** No chunk exceeds the limit by more than its last name. */
  lemma ChunkSize(chunk: seq<string>)
    requires chunk != [] && Fits(chunk)
    ensures |Join(chunk)| <= 3072 + |chunk[|chunk| - 1]|
  {
  }
}
