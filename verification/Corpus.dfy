/** The example corpus laid out as one blob and an index of 32-bit offsets. */
module Corpus {
  type Byte = x: int | 0 <= x < 256

  datatype File = File(path: seq<Byte>, body: seq<Byte>)
  datatype Row = Row(pathAt: nat, pathLen: nat, bodyAt: nat, bodyLen: nat)

  /** `len() as u32` keeps the low 32 bits. */
  function AsU32(n: nat): nat { n % 0x1_0000_0000 }

  function Blob(files: seq<File>): seq<Byte> {
    if files == [] then [] else Blob(files[..|files| - 1]) + files[|files| - 1].path + files[|files| - 1].body
  }

  /** Where the `i`-th file starts. */
  function Start(files: seq<File>, i: nat): nat
    requires i <= |files|
  {
    |Blob(files[..i])|
  }

  /** The row a file gets. */
  function RowOf(files: seq<File>, i: nat): Row
    requires i < |files|
  {
    Row(AsU32(Start(files, i)), AsU32(|files[i].path|), AsU32(Start(files, i) + |files[i].path|),
      AsU32(|files[i].body|))
  }

  method BuildCorpus(files: seq<File>) returns (blob: seq<Byte>, rows: seq<Row>)
    ensures blob == Blob(files) && |rows| == |files|
    ensures forall i: nat :: i < |files| ==> rows[i] == RowOf(files, i)
  {
    blob, rows := [], [];
    for k := 0 to |files|
      invariant blob == Blob(files[..k]) && |rows| == k
      invariant forall i: nat :: i < k ==> rows[i] == RowOf(files, i)
    {
      assert files[..k + 1][..k] == files[..k];
      var pathAt := AsU32(|blob|);
      blob := blob + files[k].path;
      var bodyAt := AsU32(|blob|);
      blob := blob + files[k].body;
      rows := rows + [Row(pathAt, AsU32(|files[k].path|), bodyAt, AsU32(|files[k].body|))];
    }
    assert files[..|files|] == files;
  }

  lemma {:induction false} BlobGrows(files: seq<File>, i: nat, j: nat)
    requires i <= j <= |files|
    ensures Blob(files[..i]) <= Blob(files[..j])
    decreases j
  {
    if i < j {
      BlobGrows(files, i, j - 1);
      assert files[..j][..j - 1] == files[..j - 1];
    }
  }

  /** The `i`-th file stands in the blob from its start, path first, and the next file starts where it ends. */
  lemma FileAt(files: seq<File>, i: nat)
    requires i < |files|
    ensures Start(files, i + 1) == Start(files, i) + |files[i].path| + |files[i].body| <= |Blob(files)|
    ensures var s := Start(files, i);
            && Blob(files)[s..s + |files[i].path|] == files[i].path
            && Blob(files)[s + |files[i].path|..Start(files, i + 1)] == files[i].body
  {
    NextBlob(files, i);
    BlobGrows(files, i + 1, |files|);
    assert files[..|files|] == files;
    JoinSlices(Blob(files[..i]), files[i].path, files[i].body, Blob(files));
  }

  lemma NextBlob(files: seq<File>, i: nat)
    requires i < |files|
    ensures Blob(files[..i + 1]) == Blob(files[..i]) + files[i].path + files[i].body
  {
    var upTo := files[..i + 1];
    assert upTo[..|upTo| - 1] == files[..i] && upTo[|upTo| - 1] == files[i];
  }

  lemma JoinSlices(a: seq<Byte>, b: seq<Byte>, c: seq<Byte>, all: seq<Byte>)
    requires a + b + c <= all
    ensures |a| + |b| + |c| <= |all|
    ensures all[|a|..|a| + |b|] == b && all[|a| + |b|..|a| + |b| + |c|] == c
  {
    var s := a + b + c;
    assert forall k :: 0 <= k < |s| ==> all[k] == s[k];
  }

  /** The row says where the file is, no number cut. */
  ghost predicate Exact(files: seq<File>, i: nat)
    requires i < |files|
  {
    RowOf(files, i) == Row(Start(files, i), |files[i].path|, Start(files, i) + |files[i].path|, |files[i].body|)
  }

  lemma ExactIs(files: seq<File>, i: nat)
    requires i < |files|
    ensures Exact(files, i) <==> Start(files, i) + |files[i].path| < 0x1_0000_0000 && |files[i].body| < 0x1_0000_0000
  {
  }

  /** **Every row slices back its file.** While the blob is shorter than 2^32 bytes. */
  lemma RowsSliceBack(files: seq<File>, i: nat)
    requires i < |files| && |Blob(files)| < 0x1_0000_0000
    ensures var r := RowOf(files, i);
            && r.pathAt + r.pathLen == r.bodyAt && r.bodyAt + r.bodyLen <= |Blob(files)|
            && Blob(files)[r.pathAt..r.pathAt + r.pathLen] == files[i].path
            && Blob(files)[r.bodyAt..r.bodyAt + r.bodyLen] == files[i].body
  {
    FileAt(files, i);
    ExactIs(files, i);
  }

  lemma NextFollows(files: seq<File>, i: nat)
    requires i + 1 < |files| && |Blob(files)| < 0x1_0000_0000
    ensures RowOf(files, i + 1).pathAt == RowOf(files, i).bodyAt + RowOf(files, i).bodyLen
  {
    FileAt(files, i);
    FileAt(files, i + 1);
    ExactIs(files, i);
    ExactIs(files, i + 1);
  }

  lemma Ends(files: seq<File>)
    requires files != [] && |Blob(files)| < 0x1_0000_0000
    ensures RowOf(files, 0).pathAt == 0
    ensures RowOf(files, |files| - 1).bodyAt + RowOf(files, |files| - 1).bodyLen == |Blob(files)|
  {
    assert files[..0] == [] && files[..|files|] == files;
    FileAt(files, |files| - 1);
    ExactIs(files, |files| - 1);
  }

  /** **The rows tile the blob**: they start at its start, follow one another, and end at its end. */
  lemma RowsTile(files: seq<File>)
    requires files != [] && |Blob(files)| < 0x1_0000_0000
    ensures RowOf(files, 0).pathAt == 0
    ensures forall i: nat :: i + 1 < |files| ==>
      RowOf(files, i + 1).pathAt == RowOf(files, i).bodyAt + RowOf(files, i).bodyLen
    ensures RowOf(files, |files| - 1).bodyAt + RowOf(files, |files| - 1).bodyLen == |Blob(files)|
  {
    Ends(files);
    forall i: nat | i + 1 < |files|
      ensures RowOf(files, i + 1).pathAt == RowOf(files, i).bodyAt + RowOf(files, i).bodyLen
    {
      NextFollows(files, i);
    }
  }

  /** **When no row wraps.** Exactly when the last file's body starts below 2^32 and is shorter than that. */
  lemma NoRowWraps(files: seq<File>)
    ensures (forall i: nat :: i < |files| ==> Exact(files, i)) <==>
            files == [] || (Start(files, |files| - 1) + |files[|files| - 1].path| < 0x1_0000_0000
              && |files[|files| - 1].body| < 0x1_0000_0000)
  {
    if files != [] {
      var last := |files| - 1;
      ExactIs(files, last);
      if Exact(files, last) {
        forall i: nat | i < last ensures Exact(files, i) {
          EarlierFits(files, i, last);
          ExactIs(files, i);
        }
      }
    }
  }

  lemma EarlierFits(files: seq<File>, i: nat, j: nat)
    requires i < j < |files|
    ensures Start(files, i) + |files[i].path| + |files[i].body| <= Start(files, j)
  {
    FileAt(files, i);
    BlobGrows(files, i + 1, j);
  }
}
