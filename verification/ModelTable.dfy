/** The per-joint model table of a serial chain, built from parsed URDF joints or from an (n, 10)
    tensor, and its conversion back to a tensor. */
module ModelTable {
  import opened Wrappers
  import opened UrdfChain
  import opened UrdfChainTheorems

  datatype JointType = Revolute | Continuous | Prismatic | Fixed

  datatype JointRow = JointRow(name: string, xyz: Vector3, rpy: Vector3, axis: Vector3, jointType: JointType)

  const ZERO := Vector3(0.0, 0.0, 0.0)

  // ----- from URDF joints

  datatype RowError = UnsupportedType(name: string, typeStr: string) | ZeroAxis(name: string)

  datatype UrdfError = BadChain(chainError: WalkError) | BadRow(rowError: RowError)

  function ParseType(typeStr: string): Option<JointType> {
    if typeStr == "revolute" then Some(Revolute)
    else if typeStr == "continuous" then Some(Continuous)
    else if typeStr == "prismatic" then Some(Prismatic)
    else if typeStr == "fixed" then Some(Fixed)
    else None
  }

  /** Validates one joint and turns it into a row. */
  function ToRow(parsed: ParsedJoint): Result<JointRow, RowError> {
    match ParseType(parsed.typeStr)
    case None => Failure(UnsupportedType(parsed.name, parsed.typeStr))
    case Some(jointType) =>
      if jointType == Fixed then
        Success(JointRow(parsed.name, parsed.xyz, parsed.rpy, ZERO, Fixed))
      else if parsed.axisOpt.Some? then
        if parsed.axisOpt.value == ZERO then Failure(ZeroAxis(parsed.name))
        else Success(JointRow(parsed.name, parsed.xyz, parsed.rpy, parsed.axisOpt.value, jointType))
      else
        Success(JointRow(parsed.name, parsed.xyz, parsed.rpy, Vector3(1.0, 0.0, 0.0), jointType))
  }

  /** What a URDF must say about a joint for it to have a row. */
  predicate Convertible(j: ParsedJoint) {
    && j.typeStr in {"revolute", "continuous", "prismatic", "fixed"}
    && (j.typeStr != "fixed" ==> j.axisOpt != Some(ZERO))
  }

  function TypeName(t: JointType): string {
    match t
    case Revolute => "revolute"
    case Continuous => "continuous"
    case Prismatic => "prismatic"
    case Fixed => "fixed"
  }

  lemma ParseTypeInverse(typeStr: string, t: JointType)
    ensures ParseType(typeStr) == Some(t) <==> TypeName(t) == typeStr
  {
    assert "revolute"[0] == 'r' && "continuous"[0] == 'c' && "prismatic"[0] == 'p' && "fixed"[0] == 'f';
  }

  /** A row says of its joint what the URDF says: name, offsets and type unchanged; no axis for a
      fixed joint, else the given axis, else the x axis.  A rejection names the joint and is for an
      unknown type, or for a zero axis on a joint that moves. */
  lemma RowMeaning(j: ParsedJoint)
    ensures ToRow(j).Success? <==> Convertible(j)
    ensures ToRow(j).Success? ==>
      var row := ToRow(j).value;
      && row.name == j.name && row.xyz == j.xyz && row.rpy == j.rpy && TypeName(row.jointType) == j.typeStr
      && (row.axis == ZERO <==> j.typeStr == "fixed")
      && (j.typeStr != "fixed" && j.axisOpt.Some? ==> row.axis == j.axisOpt.value)
      && (j.typeStr != "fixed" && j.axisOpt.None? ==> row.axis == Vector3(1.0, 0.0, 0.0))
    ensures ToRow(j).Failure? ==>
      && ToRow(j).error.name == j.name
      && (ToRow(j).error.UnsupportedType? <==> forall t :: TypeName(t) != j.typeStr)
  {
    forall t ensures ParseType(j.typeStr) == Some(t) <==> TypeName(t) == j.typeStr {
      ParseTypeInverse(j.typeStr, t);
    }
  }

  /** `rows` are the rows of `path`, joint by joint. */
  ghost predicate RowsOf(path: seq<ParsedJoint>, rows: seq<JointRow>) {
    |rows| == |path| && forall i :: 0 <= i < |path| ==> ToRow(path[i]) == Success(rows[i])
  }

  ghost predicate UrdfOutcome(joints: seq<ParsedJoint>, r: Result<seq<JointRow>, UrdfError>) {
    match r
    case Success(rows) =>
      exists path :: IsChainOf(joints, path) && RowsOf(path, rows)
    case Failure(BadChain(e)) =>
      Outcome(joints, Failure(e))
    case Failure(BadRow(e)) =>
      exists path, i :: IsChainOf(joints, path) && FirstBadRow(path, i, e)
  }

  ghost predicate FirstBadRow(path: seq<ParsedJoint>, i: nat, e: RowError) {
    && i < |path|
    && ToRow(path[i]) == Failure(e)
    && forall k :: 0 <= k < i ==> ToRow(path[k]).Success?
  }

  lemma RowsOutcome(joints: seq<ParsedJoint>, chain: seq<ParsedJoint>, rows: seq<JointRow>)
    requires Outcome(joints, Success(chain)) && RowsOf(chain, rows)
    ensures UrdfOutcome(joints, Success(rows))
  {
    SucceedsIffChain(joints, Success(chain));
  }

  lemma BadRowOutcome(joints: seq<ParsedJoint>, chain: seq<ParsedJoint>, i: nat, e: RowError)
    requires Outcome(joints, Success(chain)) && FirstBadRow(chain, i, e)
    ensures UrdfOutcome(joints, Failure(BadRow(e)))
  {
    SucceedsIffChain(joints, Success(chain));
  }

  /** Builds the table in chain order, or reports the chain's error or the first bad joint. */
  method FromJoints(joints: seq<ParsedJoint>) returns (r: Result<seq<JointRow>, UrdfError>)
    ensures UrdfOutcome(joints, r)
  {
    var walked := WalkUrdfChain(joints);
    if walked.Failure? {
      return Failure(BadChain(walked.error));
    }
    var chain := walked.value;
    var rows := [];
    for i := 0 to |chain|
      invariant |rows| == i && forall k :: 0 <= k < i ==> ToRow(chain[k]) == Success(rows[k])
    {
      var row := ToRow(chain[i]);
      if row.Failure? {
        BadRowOutcome(joints, chain, i, row.error);
        return Failure(BadRow(row.error));
      }
      rows := rows + [row.value];
    }
    RowsOutcome(joints, chain, rows);
    return Success(rows);
  }

  lemma TabledIsConvertible(joints: seq<ParsedJoint>, rows: seq<JointRow>)
    requires UrdfOutcome(joints, Success(rows))
    ensures FormsChain(joints) && forall j :: j in joints ==> Convertible(j)
  {
    var path :| IsChainOf(joints, path) && RowsOf(path, rows);
    ChainMembers(joints, path);
    forall i | 0 <= i < |path| ensures Convertible(path[i]) {
      assert ToRow(path[i]) == Success(rows[i]);
    }
  }

  /** A table comes out exactly when the joints form a chain and every one is convertible. */
  lemma UrdfAcceptedIff(joints: seq<ParsedJoint>, r: Result<seq<JointRow>, UrdfError>)
    requires UrdfOutcome(joints, r)
    ensures r.Success? <==> FormsChain(joints) && forall j :: j in joints ==> Convertible(j)
  {
    match r
    case Success(rows) =>
      TabledIsConvertible(joints, rows);
    case Failure(BadChain(e)) =>
      SucceedsIffChain(joints, Failure(e));
    case Failure(BadRow(e)) =>
      var path, i :| IsChainOf(joints, path) && FirstBadRow(path, i, e);
      ChainMembers(joints, path);
      assert path[i] in joints && !Convertible(path[i]);
  }

  /** A table built from a URDF has one row per joint, so `ToTensor` never rejects it, and a row
      has a zero axis exactly when its joint is fixed. */
  lemma UrdfTable(joints: seq<ParsedJoint>, rows: seq<JointRow>)
    requires UrdfOutcome(joints, Success(rows))
    ensures |rows| == |joints| > 0
    ensures forall i :: 0 <= i < |rows| ==> (rows[i].axis == ZERO <==> rows[i].jointType == Fixed)
  {
    var path :| IsChainOf(joints, path) && RowsOf(path, rows);
    ChainMembers(joints, path);
    forall i | 0 <= i < |rows| ensures rows[i].axis == ZERO <==> rows[i].jointType == Fixed {
      assert ToRow(path[i]) == Success(rows[i]);
    }
  }

  // ----- to and from a tensor

  /** A row-major array of any dimension. */
  datatype Tensor = Tensor(shape: seq<nat>, cells: seq<real>)

  datatype TensorError =
    | NotTwoDimensional(dimension: nat)
    | WrongWidth(width: nat)
    | EmptyTensor
    | NotAnInteger(row: nat)
    | UnknownType(row: nat, code: int)

  datatype TableError = EmptyTable

  function Product(shape: seq<nat>): nat {
    if shape == [] then 1 else shape[0] * Product(shape[1..])
  }

  /** The array's own invariant: one cell per index. */
  predicate IsTensor(t: Tensor) {
    |t.cells| == Product(t.shape)
  }

  function Code(t: JointType): int {
    match t
    case Revolute => 0
    case Continuous => 1
    case Prismatic => 2
    case Fixed => 3
  }

  function TypeOf(code: int): Option<JointType> {
    match code
    case 0 => Some(Revolute)
    case 1 => Some(Continuous)
    case 2 => Some(Prismatic)
    case 3 => Some(Fixed)
    case _ => None
  }

  /** The columns of the row of a joint. */
  function Cells(row: JointRow): (cells: seq<real>)
    ensures |cells| == 10
  {
    [row.xyz.x, row.xyz.y, row.xyz.z,
     row.rpy.x, row.rpy.y, row.rpy.z,
     row.axis.x, row.axis.y, row.axis.z,
     Code(row.jointType) as real]
  }

  function Cell(row: JointRow, c: nat): real
    requires c < 10
  {
    Cells(row)[c]
  }

  function At(cells: seq<real>, i: nat, c: nat): real
    requires c < 10 && 10 * i + c < |cells|
  {
    cells[10 * i + c]
  }

  /** `cells` hold the first `n` rows. */
  ghost predicate HoldsRows(cells: seq<real>, rows: seq<JointRow>, n: nat)
    requires n <= |rows| && 10 * n <= |cells|
  {
    forall i: nat, c: nat {:trigger At(cells, i, c)} :: i < n && c < 10 ==> At(cells, i, c) == Cell(rows[i], c)
  }

  /** `t` is the (n, 10) tensor of `rows`. */
  ghost predicate Represents(t: Tensor, rows: seq<JointRow>) {
    && t.shape == [|rows|, 10]
    && |t.cells| == 10 * |rows|
    && HoldsRows(t.cells, rows, |rows|)
  }

  method ToTensor(rows: seq<JointRow>) returns (r: Result<Tensor, TableError>)
    ensures r.Failure? <==> rows == []
    ensures r.Success? ==> IsTensor(r.value) && Represents(r.value, rows)
  {
    if rows == [] {
      return Failure(EmptyTable);
    }
    var out := new real[10 * |rows|](_ => 0.0);
    for i := 0 to |rows|
      invariant HoldsRows(out[..], rows, i)
    {
      var row := rows[i];
      ghost var before := out[..];
      out[10 * i] := row.xyz.x;
      out[10 * i + 1] := row.xyz.y;
      out[10 * i + 2] := row.xyz.z;
      out[10 * i + 3] := row.rpy.x;
      out[10 * i + 4] := row.rpy.y;
      out[10 * i + 5] := row.rpy.z;
      out[10 * i + 6] := row.axis.x;
      out[10 * i + 7] := row.axis.y;
      out[10 * i + 8] := row.axis.z;
      out[10 * i + 9] := Code(row.jointType) as real;
      RowWritten(before, out[..], rows, i);
    }
    ProductOfTable(|rows|);
    return Success(Tensor([|rows|, 10], out[..]));
  }

  lemma RowWritten(before: seq<real>, after: seq<real>, rows: seq<JointRow>, n: nat)
    requires n < |rows| && |before| == |after| == 10 * |rows|
    requires HoldsRows(before, rows, n)
    requires before[..10 * n] == after[..10 * n]
    requires after[10 * n..10 * n + 10] == Cells(rows[n])
    ensures HoldsRows(after, rows, n + 1)
  {
    forall i: nat, c: nat | i < n + 1 && c < 10 ensures At(after, i, c) == Cell(rows[i], c) {
      if i < n {
        assert At(before, i, c) == before[..10 * n][10 * i + c] == after[..10 * n][10 * i + c];
      } else {
        assert after[10 * n + c] == after[10 * n..10 * n + 10][c];
      }
    }
  }

  lemma ProductOfTable(n: nat)
    ensures Product([n, 10]) == 10 * n
  {
    assert [n, 10][1..] == [10] && [10][1..] == [];
    assert Product([10]) == 10 * Product([]);
  }

  /** Conversion to an integer, which drops the fraction. */
  function Truncate(v: real): int {
    if v >= 0.0 then v.Floor else -(-v).Floor
  }

  predicate IsWhole(v: real) {
    v == v.Floor as real
  }

  predicate IsCode(v: real) {
    v in {0.0, 1.0, 2.0, 3.0}
  }

  predicate IsTable(t: Tensor) {
    |t.shape| == 2 && t.shape[1] == 10 && t.shape[0] > 0
  }

  ghost predicate Accepted(t: Tensor)
    requires IsTensor(t)
  {
    IsTable(t) && (TableCells(t); forall i: nat :: i < t.shape[0] ==> IsCode(At(t.cells, i, 9)))
  }

  lemma TableCells(t: Tensor)
    requires IsTensor(t) && IsTable(t)
    ensures |t.cells| == 10 * t.shape[0]
  {
    assert t.shape == [t.shape[0], 10];
    ProductOfTable(t.shape[0]);
  }

  ghost predicate FirstBadCode(t: Tensor, row: nat)
    requires IsTensor(t) && IsTable(t)
  {
    && row < t.shape[0]
    && (TableCells(t); !IsCode(At(t.cells, row, 9)))
    && (TableCells(t); forall i: nat :: i < row ==> IsCode(At(t.cells, i, 9)))
  }

  ghost predicate TensorOutcome(t: Tensor, r: Result<seq<JointRow>, TensorError>)
    requires IsTensor(t)
  {
    match r
    case Success(rows) => Accepted(t) && Represents(t, rows) && forall row :: row in rows ==> row.name == ""
    case Failure(NotTwoDimensional(d)) => d == |t.shape| != 2
    case Failure(WrongWidth(w)) => |t.shape| == 2 && w == t.shape[1] != 10
    case Failure(EmptyTensor) => |t.shape| == 2 && t.shape[1] == 10 && t.shape[0] == 0
    case Failure(NotAnInteger(row)) =>
      IsTable(t) && FirstBadCode(t, row) &&
      (TableCells(t); !IsWhole(At(t.cells, row, 9)))
    case Failure(UnknownType(row, code)) =>
      IsTable(t) && FirstBadCode(t, row) &&
      (TableCells(t); At(t.cells, row, 9) == code as real)
  }

  method FromTensor(t: Tensor) returns (r: Result<seq<JointRow>, TensorError>)
    requires IsTensor(t)
    ensures TensorOutcome(t, r)
  {
    if |t.shape| != 2 {
      return Failure(NotTwoDimensional(|t.shape|));
    }
    if t.shape[1] != 10 {
      return Failure(WrongWidth(t.shape[1]));
    }
    if t.shape[0] == 0 {
      return Failure(EmptyTensor);
    }
    TableCells(t);
    var cells := t.cells;
    var rows: seq<JointRow> := [];
    for i := 0 to t.shape[0]
      invariant |rows| == i && HoldsRows(cells, rows, i)
      invariant forall k: nat :: k < i ==> IsCode(At(cells, k, 9))
      invariant forall row :: row in rows ==> row.name == ""
    {
      var typeV := At(cells, i, 9);
      var typeI := Truncate(typeV);
      if typeI as real != typeV {
        return Failure(NotAnInteger(i));
      }
      var jointType := TypeOf(typeI);
      if jointType.None? {
        return Failure(UnknownType(i, typeI));
      }
      var xyz := Vector3(At(cells, i, 0), At(cells, i, 1), At(cells, i, 2));
      var rpy := Vector3(At(cells, i, 3), At(cells, i, 4), At(cells, i, 5));
      var axis := Vector3(At(cells, i, 6), At(cells, i, 7), At(cells, i, 8));
      var row := JointRow("", xyz, rpy, axis, jointType.value);
      assert forall c: nat :: c < 10 ==> At(cells, i, c) == Cell(row, c);
      rows := rows + [row];
    }
    assert t.shape == [|rows|, 10];
    return Success(rows);
  }

  // ----- what each column is

  /** Row `i` of `t`, column by column: offset, rotation, axis, and the number of the joint's type. */
  ghost predicate HoldsJoint(t: Tensor, i: nat, xyz: Vector3, rpy: Vector3, axis: Vector3, typeStr: string)
    requires 10 * i + 10 <= |t.cells|
  {
    && t.cells[10 * i] == xyz.x && t.cells[10 * i + 1] == xyz.y && t.cells[10 * i + 2] == xyz.z
    && t.cells[10 * i + 3] == rpy.x && t.cells[10 * i + 4] == rpy.y && t.cells[10 * i + 5] == rpy.z
    && t.cells[10 * i + 6] == axis.x && t.cells[10 * i + 7] == axis.y && t.cells[10 * i + 8] == axis.z
    && t.cells[10 * i + 9] in {0.0, 1.0, 2.0, 3.0}
    && (t.cells[10 * i + 9] == 0.0 <==> typeStr == "revolute")
    && (t.cells[10 * i + 9] == 1.0 <==> typeStr == "continuous")
    && (t.cells[10 * i + 9] == 2.0 <==> typeStr == "prismatic")
    && (t.cells[10 * i + 9] == 3.0 <==> typeStr == "fixed")
  }

  lemma TypeNumber(t: JointType)
    ensures t == Revolute <==> Code(t) == 0 && TypeName(t) == "revolute"
    ensures t == Continuous <==> Code(t) == 1 && TypeName(t) == "continuous"
    ensures t == Prismatic <==> Code(t) == 2 && TypeName(t) == "prismatic"
    ensures t == Fixed <==> Code(t) == 3 && TypeName(t) == "fixed"
  {
    assert "revolute"[0] == 'r' && "continuous"[0] == 'c' && "prismatic"[0] == 'p' && "fixed"[0] == 'f';
  }

  lemma TypeNames(t: JointType)
    ensures TypeName(t) in {"revolute", "continuous", "prismatic", "fixed"}
    ensures forall u :: TypeName(u) == TypeName(t) ==> u == t
  {
    assert "revolute"[0] == 'r' && "continuous"[0] == 'c' && "prismatic"[0] == 'p' && "fixed"[0] == 'f';
  }

  /** The columns of a tensor written from, or read as, a table. */
  lemma TensorColumns(t: Tensor, rows: seq<JointRow>, i: nat)
    requires Represents(t, rows) && i < |rows|
    ensures HoldsJoint(t, i, rows[i].xyz, rows[i].rpy, rows[i].axis, TypeName(rows[i].jointType))
  {
    var row := rows[i];
    assert At(t.cells, i, 0) == row.xyz.x && At(t.cells, i, 1) == row.xyz.y && At(t.cells, i, 2) == row.xyz.z;
    assert At(t.cells, i, 3) == row.rpy.x && At(t.cells, i, 4) == row.rpy.y && At(t.cells, i, 5) == row.rpy.z;
    assert At(t.cells, i, 6) == row.axis.x && At(t.cells, i, 7) == row.axis.y && At(t.cells, i, 8) == row.axis.z;
    assert At(t.cells, i, 9) == Code(row.jointType) as real;
    TypeNumber(row.jointType);
    TypeNames(row.jointType);
  }

  /** The axis of a joint that has a row: none if it is fixed, else the given one or the x axis. */
  function AxisOf(j: ParsedJoint): Vector3 {
    if j.typeStr == "fixed" then Vector3(0.0, 0.0, 0.0)
    else if j.axisOpt.Some? then j.axisOpt.value
    else Vector3(1.0, 0.0, 0.0)
  }

  /** From the URDF to the tensor: its rows are the joints of the chain, from root to leaf, and each
      column is what the URDF says of that joint. */
  lemma UrdfColumns(joints: seq<ParsedJoint>, rows: seq<JointRow>, t: Tensor)
    returns (path: seq<ParsedJoint>)
    requires UrdfOutcome(joints, Success(rows)) && Represents(t, rows)
    ensures IsChainOf(joints, path) && |t.cells| == 10 * |path|
    ensures forall i :: 0 <= i < |path| ==>
      HoldsJoint(t, i, path[i].xyz, path[i].rpy, AxisOf(path[i]), path[i].typeStr)
  {
    path :| IsChainOf(joints, path) && RowsOf(path, rows);
    forall i | 0 <= i < |path|
      ensures HoldsJoint(t, i, path[i].xyz, path[i].rpy, AxisOf(path[i]), path[i].typeStr)
    {
      assert ToRow(path[i]) == Success(rows[i]);
      RowMeaning(path[i]);
      TensorColumns(t, rows, i);
    }
  }

  // ----- round trips

  lemma CellsDetermineRow(a: JointRow, b: JointRow)
    requires forall c: nat :: c < 10 ==> Cell(a, c) == Cell(b, c)
    ensures a.(name := "") == b.(name := "")
  {
    assert forall k: nat :: k < 10 ==> Cell(a, k) == Cell(b, k);
    assert Cell(a, 0) == Cell(b, 0) && Cell(a, 1) == Cell(b, 1) && Cell(a, 2) == Cell(b, 2);
    assert Cell(a, 3) == Cell(b, 3) && Cell(a, 4) == Cell(b, 4) && Cell(a, 5) == Cell(b, 5);
    assert Cell(a, 6) == Cell(b, 6) && Cell(a, 7) == Cell(b, 7) && Cell(a, 8) == Cell(b, 8);
    assert Cell(a, 9) == Cell(b, 9);
  }

  /** The tensor fixes every row up to its name. */
  lemma TensorDeterminesRows(t: Tensor, rows: seq<JointRow>, others: seq<JointRow>)
    requires Represents(t, rows) && Represents(t, others)
    ensures |rows| == |others|
    ensures forall i :: 0 <= i < |rows| ==> rows[i].(name := "") == others[i].(name := "")
  {
    assert t.shape[0] == |rows| == |others|;
    forall i: nat | i < |rows| ensures rows[i].(name := "") == others[i].(name := "") {
      forall c: nat | c < 10 ensures Cell(rows[i], c) == Cell(others[i], c) {
        assert At(t.cells, i, c) == Cell(rows[i], c);
      }
      CellsDetermineRow(rows[i], others[i]);
    }
  }

  function Blanked(rows: seq<JointRow>): seq<JointRow> {
    seq(|rows|, i requires 0 <= i < |rows| => rows[i].(name := ""))
  }

  /** Reading back the tensor of a non-empty table gives the table with its names blanked. */
  lemma TableRoundTrip(rows: seq<JointRow>, t: Tensor, r: Result<seq<JointRow>, TensorError>)
    requires rows != [] && IsTensor(t) && Represents(t, rows)
    requires TensorOutcome(t, r)
    ensures r == Success(Blanked(rows))
  {
    forall i: nat | i < |rows| ensures IsCode(At(t.cells, i, 9)) {
      assert At(t.cells, i, 9) == Cell(rows[i], 9);
    }
    TensorAcceptedIff(t, r);
    TensorDeterminesRows(t, rows, r.value);
    forall i | 0 <= i < |rows| ensures r.value[i] == Blanked(rows)[i] {
      assert r.value[i] in r.value;
      assert rows[i].(name := "") == r.value[i].(name := "");
    }
    assert r.value == Blanked(rows);
  }

  /** Writing the table read from an accepted tensor gives that tensor. */
  lemma TensorRoundTrip(t: Tensor, rows: seq<JointRow>, t': Tensor)
    requires IsTensor(t) && TensorOutcome(t, Success(rows))
    requires Represents(t', rows)
    ensures t' == t
  {
    forall k | 0 <= k < |t.cells| ensures t.cells[k] == t'.cells[k] {
      assert At(t.cells, k / 10, k % 10) == At(t'.cells, k / 10, k % 10);
    }
    assert t.cells == t'.cells;
  }

  /** A tensor is accepted exactly when it is 2-D, ten columns wide, not empty and holds joint
      type codes in its last column; a rejection names what is wrong with it. */
  lemma TensorAcceptedIff(t: Tensor, r: Result<seq<JointRow>, TensorError>)
    requires IsTensor(t) && TensorOutcome(t, r)
    ensures r.Success? <==> Accepted(t)
  {
    match r
    case Failure(NotAnInteger(row)) =>
      TableCells(t);
      assert !IsCode(At(t.cells, row, 9));
    case Failure(UnknownType(row, _)) =>
      TableCells(t);
      assert !IsCode(At(t.cells, row, 9));
    case _ =>
  }
}
