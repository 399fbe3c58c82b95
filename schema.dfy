/**
 The output column schema: every column a secondary file contributes is named
 `<PascalName>__<header>`, and each secondary file contributes its own headers
 plus a `match_certainty` column.
 */
module Schema {
  import opened JsObjects

  /** The extra column appended to every secondary file's headers. */
  const CertaintyHeader: string := "match_certainty"

  /**
   One input CSV file as the collaborators hand it over: its base name, its
   header names, the fields chosen for matching, and all of its records
   (the header record included, as the CSV parser yields it).
   */
  datatype Source = Source(name: string, headers: seq<string>, selected: seq<string>, records: seq<seq<string>>)

  /**
   `makeColName`: the column name for `header` of the file called `fileName`.
   `pascal` is the casing transform applied to the file name; it is not
   interpreted. The name splits back into the cased file name, the `__`
   separator and the original header.
   */
  function MakeColName(pascal: string -> string, fileName: string, header: string): (col: string)
    ensures |col| == |pascal(fileName)| + 2 + |header|
    ensures col[..|pascal(fileName)|] == pascal(fileName)
    ensures col[|pascal(fileName)|..|pascal(fileName)| + 2] == "__"
    ensures col[|pascal(fileName)| + 2..] == header
  {
    pascal(fileName) + "__" + header
  }

  /** Within one file, different headers give different column names. */
  lemma ColNameInjective(pascal: string -> string, fileName: string, h1: string, h2: string)
    requires MakeColName(pascal, fileName, h1) == MakeColName(pascal, fileName, h2)
    ensures h1 == h2
  {
  }

  /**
   Across files: when the cased file names differ and neither contains an
   underscore (as a PascalCase name does not), no column name of one file
   equals a column name of the other, whatever the headers.
   */
  lemma ColNamesDisjoint(pascal: string -> string, f1: string, f2: string, h1: string, h2: string)
    requires pascal(f1) != pascal(f2)
    requires '_' !in pascal(f1) && '_' !in pascal(f2)
    ensures MakeColName(pascal, f1, h1) != MakeColName(pascal, f2, h2)
  {
    var p1, p2 := pascal(f1), pascal(f2);
    var c1, c2 := MakeColName(pascal, f1, h1), MakeColName(pascal, f2, h2);
    if |p1| == |p2| {
      assert c1[..|p1|] != c2[..|p2|];
    } else if |p1| < |p2| {
      assert p2[|p1|] in p2;
      assert c1[|p1|] != c2[|p1|];
    } else {
      assert p1[|p2|] in p1;
      assert c1[|p2|] != c2[|p2|];
    }
  }

  /**
   A file's `fileHeaders`: its headers with `match_certainty` appended, each
   turned into a column name of that file.
   */
  function FileHeaders(pascal: string -> string, fileName: string, headers: seq<string>): (fh: seq<string>)
    ensures |fh| == |headers| + 1
    ensures forall i :: 0 <= i < |headers| ==> fh[i] == MakeColName(pascal, fileName, headers[i])
    ensures fh[|headers|] == MakeColName(pascal, fileName, CertaintyHeader)
  {
    var named := headers + [CertaintyHeader];
    seq(|named|, i requires 0 <= i < |named| => MakeColName(pascal, fileName, named[i]))
  }

  /**
   The column names of one file are distinct when its headers are distinct and
   none of them is itself `match_certainty`.
   */
  lemma FileHeadersDistinct(pascal: string -> string, fileName: string, headers: seq<string>)
    requires Distinct(headers)
    requires CertaintyHeader !in headers
    ensures Distinct(FileHeaders(pascal, fileName, headers))
  {
    var fh := FileHeaders(pascal, fileName, headers);
    var named := headers + [CertaintyHeader];
    var n := |pascal(fileName)| + 2;
    forall i, j | 0 <= i < j < |fh|
      ensures fh[i] != fh[j]
    {
      assert named[i] != named[j] by {
        if j == |headers| {
          assert headers[i] in headers;
        }
      }
      assert fh[i][n..] != fh[j][n..];
    }
  }

  /** Two files whose cased names differ (and carry no underscore) share no output column. */
  lemma FileHeadersDisjoint(pascal: string -> string, f1: string, hs1: seq<string>, f2: string, hs2: seq<string>)
    requires pascal(f1) != pascal(f2)
    requires '_' !in pascal(f1) && '_' !in pascal(f2)
    ensures forall c :: c in FileHeaders(pascal, f1, hs1) ==> c !in FileHeaders(pascal, f2, hs2)
  {
    var fh1, fh2 := FileHeaders(pascal, f1, hs1), FileHeaders(pascal, f2, hs2);
    var n1, n2 := hs1 + [CertaintyHeader], hs2 + [CertaintyHeader];
    forall i, j | 0 <= i < |fh1| && 0 <= j < |fh2|
      ensures fh1[i] != fh2[j]
    {
      assert fh1[i] == MakeColName(pascal, f1, n1[i]);
      assert fh2[j] == MakeColName(pascal, f2, n2[j]);
      ColNamesDisjoint(pascal, f1, f2, n1[i], n2[j]);
    }
  }

  /**
   The placeholder columns the primary table is seeded with: the `fileHeaders`
   of every secondary file, concatenated in file order.
   */
  function AddHeaders(pascal: string -> string, secondaries: seq<Source>): (cols: seq<string>)
    ensures forall j, c :: 0 <= j < |secondaries| && c in FileHeaders(pascal, secondaries[j].name, secondaries[j].headers) ==> c in cols
    ensures forall c :: c in cols ==> exists j :: 0 <= j < |secondaries| && c in FileHeaders(pascal, secondaries[j].name, secondaries[j].headers)
  {
    if |secondaries| == 0 then []
    else
      var b := secondaries[0];
      var rest := AddHeaders(pascal, secondaries[1..]);
      assert forall j :: 1 <= j < |secondaries| ==> secondaries[j] == secondaries[1..][j - 1];
      FileHeaders(pascal, b.name, b.headers) + rest
  }
}
