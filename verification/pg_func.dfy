/** The routine records and the decoding of routine-catalog rows into them.

    A catalog row describes one stored routine: its name, whether it returns a
    set, its return type, and three parallel arrays describing the arguments
    (types, modes, names). Decoding takes the argument count from the types
    array and copies every string verbatim; an empty modes array means every
    argument is an `in` argument.
 */
module Catalog {

  datatype PgArg = PgArg(name: string, mode: string, ty: string)

  datatype PgFunc = PgFunc(name: string, retset: bool, rettype: string, args: seq<PgArg>)

  /** One row of the routine catalog, before decoding. */
  datatype CatalogRow = CatalogRow(
    name: string,
    retset: bool,
    rettype: string,
    argtypes: seq<string>,
    argmodes: seq<string>,
    argnames: seq<string>)

  /** The mode every argument gets when the catalog lists no modes. */
  const DefaultMode: string := "in"

  /** Every index the decoder reads from the names and modes arrays exists:
      there are at least as many names as types, and the modes array is
      either empty or at least as long as the types array. */
  predicate Decodable(row: CatalogRow)
  {
    && |row.argnames| >= |row.argtypes|
    && (|row.argmodes| == 0 || |row.argmodes| >= |row.argtypes|)
  }

  /** The reads of argument `i`: its name, and its mode unless the modes
      array is empty, are in bounds. */
  predicate ArgReadable(row: CatalogRow, i: nat)
  {
    i < |row.argnames| && (|row.argmodes| == 0 || i < |row.argmodes|)
  }

  /** `Decodable` is exactly the condition that every index read while
      decoding the row is in bounds. */
  lemma DecodableIsIndexSafety(row: CatalogRow)
    ensures Decodable(row) <==> forall i: nat :: i < |row.argtypes| ==> ArgReadable(row, i)
  {
    if |row.argtypes| > 0 && !Decodable(row) {
      assert !ArgReadable(row, |row.argtypes| - 1);
    }
  }

  function ArgMode(argmodes: seq<string>, i: nat): string
    requires |argmodes| == 0 || i < |argmodes|
  {
    if |argmodes| == 0 then DefaultMode else argmodes[i]
  }

  /** The arguments `0 .. n-1` of the row, appended one at a time in
      declaration order. */
  function DecodeArgs(row: CatalogRow, n: nat): (args: seq<PgArg>)
    requires Decodable(row)
    requires n <= |row.argtypes|
    ensures |args| == n
    ensures forall i :: 0 <= i < n ==>
      && args[i].name == row.argnames[i]
      && args[i].ty == row.argtypes[i]
      && args[i].mode == (if row.argmodes == [] then DefaultMode else row.argmodes[i])
  {
    if n == 0 then []
    else
      var i := n - 1;
      DecodeArgs(row, i) + [PgArg(row.argnames[i], ArgMode(row.argmodes, i), row.argtypes[i])]
  }

  /** One catalog row decoded into a routine record: the name, the set flag
      and the return type are copied unchanged, and there is one argument per
      entry of the types array. */
  function DecodeRow(row: CatalogRow): (f: PgFunc)
    requires Decodable(row)
    ensures f.name == row.name && f.retset == row.retset && f.rettype == row.rettype
    ensures |f.args| == |row.argtypes|
    ensures forall i :: 0 <= i < |f.args| ==>
      && f.args[i].name == row.argnames[i]
      && f.args[i].ty == row.argtypes[i]
      && f.args[i].mode == (if row.argmodes == [] then DefaultMode else row.argmodes[i])
  {
    PgFunc(row.name, row.retset, row.rettype, DecodeArgs(row, |row.argtypes|))
  }

  /** An empty modes array makes every decoded argument an `in` argument. */
  lemma NoModesMeansAllIn(row: CatalogRow)
    requires Decodable(row)
    requires row.argmodes == []
    ensures forall a :: a in DecodeRow(row).args ==> a.mode == "in"
  {
    var args := DecodeRow(row).args;
    forall a | a in args
      ensures a.mode == "in"
    {
      var i :| 0 <= i < |args| && args[i] == a;
    }
  }

  /** The decoding loop over all rows: one routine record per row, in row order. */
  method FromDb(rows: seq<CatalogRow>) returns (funcs: seq<PgFunc>)
    requires forall k :: 0 <= k < |rows| ==> Decodable(rows[k])
    ensures |funcs| == |rows|
    ensures forall k :: 0 <= k < |rows| ==> funcs[k] == DecodeRow(rows[k])
  {
    funcs := [];
    for k := 0 to |rows|
      invariant |funcs| == k
      invariant forall j :: 0 <= j < k ==> funcs[j] == DecodeRow(rows[j])
    {
      var row := rows[k];
      var args: seq<PgArg> := [];
      for i := 0 to |row.argtypes|
        invariant args == DecodeArgs(row, i)
      {
        var mode := if |row.argmodes| == 0 then DefaultMode else row.argmodes[i];
        args := args + [PgArg(row.argnames[i], mode, row.argtypes[i])];
      }
      funcs := funcs + [PgFunc(row.name, row.retset, row.rettype, args)];
    }
  }

  /** The catalog row that describes a routine record, with one entry per
      argument in each of the three arrays. */
  function EncodeRow(f: PgFunc): (row: CatalogRow)
    ensures |row.argtypes| == |row.argmodes| == |row.argnames| == |f.args|
  {
    CatalogRow(
      f.name, f.retset, f.rettype,
      seq(|f.args|, i requires 0 <= i < |f.args| => f.args[i].ty),
      seq(|f.args|, i requires 0 <= i < |f.args| => f.args[i].mode),
      seq(|f.args|, i requires 0 <= i < |f.args| => f.args[i].name))
  }

  /** Decoding inverts encoding: every routine record survives the trip
      through a catalog row unchanged. */
  lemma DecodeEncode(f: PgFunc)
    ensures Decodable(EncodeRow(f))
    ensures DecodeRow(EncodeRow(f)) == f
  {
    var row := EncodeRow(f);
    var g := DecodeRow(row);
    if f.args != [] {
      assert row.argmodes != [];
    }
    assert g.args == f.args;
  }

  /** Encoding inverts decoding on rows whose three arrays have the same
      length and whose modes are spelled out. */
  lemma EncodeDecode(row: CatalogRow)
    requires |row.argnames| == |row.argtypes|
    requires |row.argmodes| == |row.argtypes|
    ensures EncodeRow(DecodeRow(row)) == row
  {
    var back := EncodeRow(DecodeRow(row));
    assert back.argtypes == row.argtypes;
    assert back.argnames == row.argnames;
    if row.argmodes != [] {
      assert back.argmodes == row.argmodes;
    }
  }

  /** The sample routine record of the program's entry point. */
  const SampleFunc: PgFunc := PgFunc(
    "get /user/:id?name&age", false, "pgr.user_t",
    [PgArg("id", "in", "int4"), PgArg("name", "in", "text"), PgArg("age", "in", "int4")])

  /** The catalog row the sample routine decodes from, with no modes listed. */
  const SampleRow: CatalogRow := CatalogRow(
    "get /user/:id?name&age", false, "pgr.user_t",
    ["int4", "text", "int4"], [], ["id", "name", "age"])

  lemma SampleRowDecodes()
    ensures Decodable(SampleRow)
    ensures DecodeRow(SampleRow) == SampleFunc
  {
    var f := DecodeRow(SampleRow);
    assert f.args == SampleFunc.args;
  }
}
