/**
 * The two Futoshiki model builders of futoshiki_csp.py. A grid of n rows,
 * each holding n numbers (0 for an open cell) with an inequality marker
 * between each two neighbours, becomes a CSP with one variable per number
 * cell and explicit satisfying-tuple constraints: one per '<' or '>' marker,
 * then either one binary not-equal constraint per pair of cells of a row or
 * column (model 1) or one all-different permutation constraint per row and
 * column (model 2).
 *
 * A variable's identity is the index the CSP gives it when it is registered.
 * Registration (futoshiki_csp.py:90-92) goes row by row in creation order,
 * so the k-th variable of row i is variable i * n + k; the builders hand out
 * these indices as they create the variables.
 */
module Futoshiki {
  import opened CspBase
  import opened Tuples

  /** A grid entry: a number (0 for an open cell) or a marker ('<', '>', or any other symbol for none). */
  datatype Cell = Num(value: int) | Mark(symbol: char)

  /** A row entry once its numbers are variables: the variable (its data and its index) or the marker. */
  datatype Element = Var(info: VarInfo, id: VarId) | Sym(symbol: char)

  /** n numbers with a marker between each two: numbers at even positions, markers at odd ones. */
  predicate WellFormedRow(row: seq<Cell>, n: nat) {
    |row| + 1 == 2 * n && forall t :: 0 <= t < |row| ==> (row[t].Num? <==> t % 2 == 0)
  }

  /** A square grid: as many well-formed rows as each row has numbers. */
  predicate WellFormed(grid: seq<seq<Cell>>) {
    forall i :: 0 <= i < |grid| ==> WellFormedRow(grid[i], |grid|)
  }

  /** The variable a number cell becomes: 0 is open over the domain, anything else is prefilled and assigned. */
  function CellVar(c: Cell, dom: seq<int>): VarInfo
    requires c.Num?
  {
    if c.value == 0 then VarInfo(dom, None) else VarInfo([c.value], Some(c.value))
  }

  /** cur_domain() of a variable just created: its assigned value, or its whole domain. */
  function FreshCurDomain(v: VarInfo): seq<int> {
    CurDomainOf(v.dom, Elems(v.dom), v.assignment)
  }

  /** Entry t of a row whose first variable gets index `base`. */
  function RowElement(row: seq<Cell>, dom: seq<int>, base: nat, t: nat): Element
    requires t < |row|
  {
    if row[t].Num? then Var(CellVar(row[t], dom), base + t / 2) else Sym(row[t].symbol)
  }

  /** The board: the k-th variable of row i is variable i * n + k. */
  function Board(n: nat): seq<seq<VarId>> {
    seq(n, i requires 0 <= i < n => seq(n, k requires 0 <= k < n => i * n + k))
  }

  /** The variables of the grid, row by row, as created. */
  function GridVars(grid: seq<seq<Cell>>): seq<seq<VarInfo>>
    requires WellFormed(grid)
  {
    var n := |grid|;
    seq(n, i requires 0 <= i < n => seq(n, k requires 0 <= k < n => CellVar(grid[i][2 * k], Domain(n))))
  }

  /** Variables at even positions, markers at odd ones, ending in a variable. */
  predicate Alternating(row: seq<Element>) {
    |row| % 2 == 1 && forall t :: 0 <= t < |row| ==> (row[t].Var? <==> t % 2 == 0)
  }

  predicate AllAlternating(elems: seq<seq<Element>>) {
    forall i :: 0 <= i < |elems| ==> Alternating(elems[i])
  }

  /** A row with its numbers replaced by variables numbered from `base`. */
  function RowElems(row: seq<Cell>, dom: seq<int>, base: nat): (r: seq<Element>)
    ensures |r| == |row| && forall t :: 0 <= t < |row| ==> (r[t].Var? <==> row[t].Num?)
  {
    seq(|row|, t requires 0 <= t < |row| => RowElement(row, dom, base, t))
  }

  /** The grid with its numbers replaced by their variables. */
  function GridElems(grid: seq<seq<Cell>>): (elems: seq<seq<Element>>)
    requires WellFormed(grid)
    ensures AllAlternating(elems)
  {
    var n := |grid|;
    seq(n, i requires 0 <= i < n => RowElems(grid[i], Domain(n), i * n))
  }

  /** Every variable of the row is below `bound`. */
  predicate RowIdsWithin(row: seq<Element>, bound: nat) {
    forall t :: 0 <= t < |row| && row[t].Var? ==> row[t].id < bound
  }

  /**
   * Lines 37-48: walk one row; a 0 becomes an open variable, another number
   * a prefilled assigned one, a marker stays as it is.
   */
  method RecordRow(row: seq<Cell>, dom: seq<int>, base: nat, ghost n: nat)
    returns (vars: seq<VarInfo>, ids: seq<VarId>, elems: seq<Element>)
    requires WellFormedRow(row, n)
    ensures |vars| == n && |ids| == n && |elems| == |row|
    ensures forall k :: 0 <= k < n ==> vars[k] == CellVar(row[2 * k], dom) && ids[k] == base + k
    ensures elems == RowElems(row, dom, base)
  {
    vars, ids, elems := [], [], [];
    for t := 0 to |row|
      invariant |elems| == t && |vars| == (t + 1) / 2 && |ids| == |vars|
      invariant forall k :: 0 <= k < |vars| ==> vars[k] == CellVar(row[2 * k], dom) && ids[k] == base + k
      invariant forall s :: 0 <= s < t ==> elems[s] == RowElement(row, dom, base, s)
    {
      var cell := row[t];
      if cell.Num? && cell.value == 0 {
        var v := VarInfo(dom, None);
        elems := elems + [Var(v, base + |vars|)];
        vars, ids := vars + [v], ids + [base + |ids|];
      } else if cell.Num? {
        var v := VarInfo([cell.value], Some(cell.value));
        elems := elems + [Var(v, base + |vars|)];
        vars, ids := vars + [v], ids + [base + |ids|];
      } else {
        elems := elems + [Sym(cell.symbol)];
      }
    }
    assert elems == RowElems(row, dom, base);
  }

  /** Lines 33-50: the domain 1..n, then every row's variables and elements. */
  method RecordVariables(grid: seq<seq<Cell>>)
    returns (vars: seq<seq<VarInfo>>, board: seq<seq<VarId>>, elems: seq<seq<Element>>)
    requires WellFormed(grid)
    ensures vars == GridVars(grid) && board == Board(|grid|) && elems == GridElems(grid)
  {
    var n := |grid|;
    var dom := Domain(n);
    vars, board, elems := [], [], [];
    var next := 0;
    for i := 0 to n
      invariant next == i * n
      invariant vars == GridVars(grid)[..i] && board == Board(n)[..i] && elems == GridElems(grid)[..i]
    {
      var rowVars, rowIds, rowElems := RecordRow(grid[i], dom, next, n);
      GridRow(grid, i, rowVars, rowIds, rowElems);
      PrefixStep(GridVars(grid), i);
      PrefixStep(Board(n), i);
      PrefixStep(GridElems(grid), i);
      vars, board, elems := vars + [rowVars], board + [rowIds], elems + [rowElems];
      next := next + |rowIds|;
      MulSucc(i + 1, n);
    }
    assert GridVars(grid)[..n] == GridVars(grid) && Board(n)[..n] == Board(n) && GridElems(grid)[..n] == GridElems(grid);
  }

  /** What RecordRow returns for row i is row i of the grid's variables, ids and elements. */
  lemma GridRow(grid: seq<seq<Cell>>, i: nat, vars: seq<VarInfo>, ids: seq<VarId>, elems: seq<Element>)
    requires WellFormed(grid) && i < |grid|
    requires |vars| == |grid| && |ids| == |grid|
    requires forall k :: 0 <= k < |grid| ==>
      vars[k] == CellVar(grid[i][2 * k], Domain(|grid|)) && ids[k] == i * |grid| + k
    requires elems == RowElems(grid[i], Domain(|grid|), i * |grid|)
    ensures vars == GridVars(grid)[i] && ids == Board(|grid|)[i] && elems == GridElems(grid)[i]
  {
  }

  lemma PrefixStep<T>(s: seq<T>, i: nat)
    requires i < |s|
    ensures s[..i + 1] == s[..i] + [s[i]]
  {
  }

  predicate IsOrderCell(c: Cell) {
    c.Mark? && (c.symbol == '>' || c.symbol == '<')
  }

  predicate IsOrderMark(e: Element) {
    e.Sym? && (e.symbol == '>' || e.symbol == '<')
  }

  /**
   * Lines 55-63: the constraint of the order marker at position t: its two
   * neighbours, with the ordered pairs of their current domains.
   */
  function MarkOf(row: seq<Element>, t: nat): Constraint
    requires Alternating(row) && t < |row| && IsOrderMark(row[t])
  {
    var left, right := row[t - 1], row[t + 1];
    Constraint([left.id, right.id], OrderTuples(row[t].symbol, FreshCurDomain(left.info), FreshCurDomain(right.info)))
  }

  /** The marker constraints of the first t entries of a row, in order. */
  function RowMarks(row: seq<Element>, t: nat): seq<Constraint>
    requires Alternating(row) && t <= |row|
  {
    if t == 0 then []
    else if IsOrderMark(row[t - 1]) then RowMarks(row, t - 1) + [MarkOf(row, t - 1)]
    else RowMarks(row, t - 1)
  }

  /** The marker constraints of the first i rows, in order. */
  function GridMarks(elems: seq<seq<Element>>, i: nat): seq<Constraint>
    requires AllAlternating(elems) && i <= |elems|
  {
    if i == 0 then [] else GridMarks(elems, i - 1) + RowMarks(elems[i - 1], |elems[i - 1]|)
  }

  /** The inner loop of lines 54-64, over one row. */
  method RecordRowMarks(row: seq<Element>, cons: seq<Constraint>) returns (cons': seq<Constraint>)
    requires Alternating(row)
    ensures cons' == cons + RowMarks(row, |row|)
  {
    cons' := cons;
    for t := 0 to |row|
      invariant cons' == cons + RowMarks(row, t)
    {
      var e := row[t];
      if e.Sym? && (e.symbol == '>' || e.symbol == '<') {
        var left, right := row[t - 1], row[t + 1];
        var tuples := OrderTuples(e.symbol, FreshCurDomain(left.info), FreshCurDomain(right.info));
        cons' := cons' + [Constraint([left.id, right.id], tuples)];
      }
    }
  }

  /** Lines 53-64: one constraint per inequality marker, row by row. */
  method RecordMarks(elems: seq<seq<Element>>) returns (cons: seq<Constraint>)
    requires AllAlternating(elems)
    ensures cons == GridMarks(elems, |elems|)
  {
    cons := [];
    for i := 0 to |elems|
      invariant cons == GridMarks(elems, i)
    {
      cons := RecordRowMarks(elems[i], cons);
    }
  }

  /**
   * The constraint of the order marker at position t of a row whose first
   * cell is variable `base`: the cells to its left and right, with the
   * ordered pairs of their current domains.
   */
  function CellMark(row: seq<Cell>, dom: seq<int>, base: nat, n: nat, t: nat): Constraint
    requires WellFormedRow(row, n) && 0 < t < |row| - 1 && IsOrderCell(row[t])
  {
    Constraint([base + (t - 1) / 2, base + (t + 1) / 2],
               OrderTuples(row[t].symbol, FreshCurDomain(CellVar(row[t - 1], dom)),
                           FreshCurDomain(CellVar(row[t + 1], dom))))
  }

  /** The marker constraint of row i at position t, in grid terms. */
  function GridMark(grid: seq<seq<Cell>>, i: nat, t: nat): Constraint
    requires WellFormed(grid) && i < |grid| && 0 < t < |grid[i]| - 1
    requires IsOrderCell(grid[i][t])
  {
    var n := |grid|;
    CellMark(grid[i], Domain(n), i * n, n, t)
  }

  /** Each order marker among a row's first t entries contributes its constraint. */
  lemma {:induction false} MarkInRowMarks(row: seq<Element>, s: nat, t: nat)
    requires Alternating(row) && s < t <= |row| && IsOrderMark(row[s])
    ensures MarkOf(row, s) in RowMarks(row, t)
  {
    if s < t - 1 {
      MarkInRowMarks(row, s, t - 1);
      if IsOrderMark(row[t - 1]) {
        assert RowMarks(row, t) == RowMarks(row, t - 1) + [MarkOf(row, t - 1)];
      }
    } else {
      assert RowMarks(row, t) == RowMarks(row, t - 1) + [MarkOf(row, s)];
    }
  }

  /** Every constraint of a row's first t entries comes from an order marker among them. */
  lemma {:induction false} RowMarkSource(row: seq<Element>, t: nat, c: Constraint) returns (s: nat)
    requires Alternating(row) && t <= |row| && c in RowMarks(row, t)
    ensures s < t && IsOrderMark(row[s]) && c == MarkOf(row, s)
  {
    if IsOrderMark(row[t - 1]) && c == MarkOf(row, t - 1) {
      s := t - 1;
    } else {
      s := RowMarkSource(row, t - 1, c);
    }
  }

  /** Each order marker of the first i rows contributes its constraint. */
  lemma {:induction false} MarkInGridMarks(elems: seq<seq<Element>>, r: nat, s: nat, i: nat)
    requires AllAlternating(elems) && r < i <= |elems| && s < |elems[r]| && IsOrderMark(elems[r][s])
    ensures MarkOf(elems[r], s) in GridMarks(elems, i)
  {
    var before, last := GridMarks(elems, i - 1), RowMarks(elems[i - 1], |elems[i - 1]|);
    assert GridMarks(elems, i) == before + last;
    if r < i - 1 {
      MarkInGridMarks(elems, r, s, i - 1);
      assert MarkOf(elems[r], s) in before;
    } else {
      MarkInRowMarks(elems[r], s, |elems[r]|);
      assert MarkOf(elems[r], s) in last;
    }
  }

  /** Every constraint of the first i rows comes from an order marker in them. */
  lemma {:induction false} GridMarkSource(elems: seq<seq<Element>>, i: nat, c: Constraint) returns (r: nat, s: nat)
    requires AllAlternating(elems) && i <= |elems| && c in GridMarks(elems, i)
    ensures r < i && s < |elems[r]| && IsOrderMark(elems[r][s]) && c == MarkOf(elems[r], s)
  {
    if c in RowMarks(elems[i - 1], |elems[i - 1]|) {
      r := i - 1;
      s := RowMarkSource(elems[r], |elems[r]|, c);
    } else {
      r, s := GridMarkSource(elems, i - 1, c);
    }
  }

  /** Entry t of row i of the element grid is an order marker exactly when the grid's is, with the same constraint. */
  lemma GridElemMark(grid: seq<seq<Cell>>, i: nat, t: nat)
    requires WellFormed(grid) && i < |grid| && t < |grid[i]|
    ensures IsOrderMark(GridElems(grid)[i][t]) <==> IsOrderCell(grid[i][t])
    ensures IsOrderCell(grid[i][t]) ==> 0 < t < |grid[i]| - 1 && MarkOf(GridElems(grid)[i], t) == GridMark(grid, i, t)
  {
    var n := |grid|;
    assert GridElems(grid)[i] == RowElems(grid[i], Domain(n), i * n);
    RowElemMark(grid[i], Domain(n), i * n, n, t);
  }

  /** The same, for one row whose variables are numbered from `base`. */
  lemma RowElemMark(row: seq<Cell>, dom: seq<int>, base: nat, n: nat, t: nat)
    requires WellFormedRow(row, n) && t < |row|
    ensures IsOrderMark(RowElems(row, dom, base)[t]) <==> IsOrderCell(row[t])
    ensures IsOrderCell(row[t]) ==>
      (0 < t < |row| - 1 && Alternating(RowElems(row, dom, base)) &&
       MarkOf(RowElems(row, dom, base), t) == CellMark(row, dom, base, n, t))
  {
    var elems := RowElems(row, dom, base);
    assert elems[t] == RowElement(row, dom, base, t);
    if IsOrderCell(row[t]) {
      var left, right := elems[t - 1], elems[t + 1];
      assert left == Var(CellVar(row[t - 1], dom), base + (t - 1) / 2);
      assert right == Var(CellVar(row[t + 1], dom), base + (t + 1) / 2);
      assert MarkOf(elems, t) ==
        Constraint([left.id, right.id], OrderTuples(row[t].symbol, FreshCurDomain(left.info), FreshCurDomain(right.info)));
    }
  }

  /** In grid terms: the marker constraints are exactly one per '<' or '>' of the grid, over its two neighbours. */
  lemma MarkConstraintsMembers(grid: seq<seq<Cell>>, c: Constraint)
    requires WellFormed(grid)
    ensures c in GridMarks(GridElems(grid), |grid|) <==>
      exists i: nat, t: nat :: i < |grid| && 0 < t < |grid[i]| - 1 && IsOrderCell(grid[i][t]) && c == GridMark(grid, i, t)
  {
    if c in GridMarks(GridElems(grid), |grid|) {
      var i, t := MarkCell(grid, c);
    }
    if exists i: nat, t: nat :: i < |grid| && 0 < t < |grid[i]| - 1 && IsOrderCell(grid[i][t]) && c == GridMark(grid, i, t) {
      var i: nat, t: nat :| i < |grid| && 0 < t < |grid[i]| - 1 && IsOrderCell(grid[i][t]) && c == GridMark(grid, i, t);
      CellMarkIn(grid, i, t);
    }
  }

  /** Each marker constraint comes from a '<' or '>' cell of the grid. */
  lemma MarkCell(grid: seq<seq<Cell>>, c: Constraint) returns (i: nat, t: nat)
    requires WellFormed(grid) && c in GridMarks(GridElems(grid), |grid|)
    ensures i < |grid| && 0 < t < |grid[i]| - 1 && IsOrderCell(grid[i][t]) && c == GridMark(grid, i, t)
  {
    i, t := GridMarkSource(GridElems(grid), |grid|, c);
    GridElemMark(grid, i, t);
  }

  /** Each '<' or '>' cell of the grid gives a marker constraint. */
  lemma CellMarkIn(grid: seq<seq<Cell>>, i: nat, t: nat)
    requires WellFormed(grid) && i < |grid| && 0 < t < |grid[i]| - 1 && IsOrderCell(grid[i][t])
    ensures GridMark(grid, i, t) in GridMarks(GridElems(grid), |grid|)
  {
    GridElemMark(grid, i, t);
    MarkInGridMarks(GridElems(grid), i, t, |grid|);
  }

  /** The not-equal constraints of one line: one per pair of its variables, in combinations order. */
  function LinePairCons(line: seq<VarId>, ne: set<seq<int>>): seq<Constraint> {
    var ps := Pairs(line);
    seq(|ps|, q requires 0 <= q < |ps| => Constraint(ps[q], ne))
  }

  /** The not-equal constraints of every line, line by line. */
  function PairCons(lines: seq<seq<VarId>>, ne: set<seq<int>>): seq<Constraint> {
    if lines == [] then [] else PairCons(lines[..|lines| - 1], ne) + LinePairCons(lines[|lines| - 1], ne)
  }

  /** The all-different constraints of every line: one per line, over the whole line. */
  function PermCons(lines: seq<seq<VarId>>, perms: set<seq<int>>): seq<Constraint> {
    seq(|lines|, l requires 0 <= l < |lines| => Constraint(lines[l], perms))
  }

  /** The inner loop of lines 69-72 (and 83-87): one constraint per pair of the line. */
  method AddLinePairs(cons: seq<Constraint>, line: seq<VarId>, ne: set<seq<int>>) returns (cons': seq<Constraint>)
    ensures cons' == cons + LinePairCons(line, ne)
  {
    var ps := Pairs(line);
    ghost var all := LinePairCons(line, ne);
    cons' := cons;
    for q := 0 to |ps|
      invariant cons' == cons + all[..q]
    {
      assert all[..q + 1] == all[..q] + [Constraint(ps[q], ne)];
      cons' := cons' + [Constraint(ps[q], ne)];
    }
    assert all[..|ps|] == all;
  }

  /** Lines 68-72 (rows) and 82-87 (columns) of model 1. */
  method AddPairConstraints(cons: seq<Constraint>, lines: seq<seq<VarId>>, ne: set<seq<int>>)
    returns (cons': seq<Constraint>)
    ensures cons' == cons + PairCons(lines, ne)
  {
    cons' := cons;
    for l := 0 to |lines|
      invariant cons' == cons + PairCons(lines[..l], ne)
    {
      assert lines[..l + 1][..l] == lines[..l];
      cons' := AddLinePairs(cons', lines[l], ne);
    }
    assert lines[..|lines|] == lines;
  }

  /** Lines 140-143 (rows) and 152-155 (columns) of model 2. */
  method AddPermConstraints(cons: seq<Constraint>, lines: seq<seq<VarId>>, perms: set<seq<int>>)
    returns (cons': seq<Constraint>)
    ensures cons' == cons + PermCons(lines, perms)
  {
    ghost var all := PermCons(lines, perms);
    cons' := cons;
    for l := 0 to |lines|
      invariant cons' == cons + all[..l]
    {
      assert all[..l + 1] == all[..l] + [Constraint(lines[l], perms)];
      cons' := cons' + [Constraint(lines[l], perms)];
    }
    assert all[..|lines|] == all;
  }

  /** Every row has as many entries as there are rows. */
  predicate Square(board: seq<seq<VarId>>) {
    forall i :: 0 <= i < |board| ==> |board[i]| == |board|
  }

  /** Column j of the board is the j-th entry of every row, in row order. */
  function Transpose(board: seq<seq<VarId>>): seq<seq<VarId>>
    requires Square(board)
  {
    var n := |board|;
    seq(n, j requires 0 <= j < n => seq(n, i requires 0 <= i < n => board[i][j]))
  }

  /** The inner loop of lines 77-79: the j-th variable of each row. */
  method ColumnOf(board: seq<seq<VarId>>, j: nat) returns (column: seq<VarId>)
    requires Square(board) && j < |board|
    ensures column == Transpose(board)[j]
  {
    column := [];
    for i := 0 to |board|
      invariant |column| == i && forall r :: 0 <= r < i ==> column[r] == board[r][j]
    {
      column := column + [board[i][j]];
    }
  }

  /** Lines 75-80 (and 145-150): the columns, built from the rows. */
  method Columns(board: seq<seq<VarId>>) returns (columns: seq<seq<VarId>>)
    requires Square(board)
    ensures columns == Transpose(board)
  {
    columns := [];
    for j := 0 to |board|
      invariant |columns| == j && forall r :: 0 <= r < j ==> columns[r] == Transpose(board)[r]
    {
      var column := ColumnOf(board, j);
      columns := columns + [column];
    }
  }

  /** The rows' variables one after the other, in registration order. */
  function Flatten(vars: seq<seq<VarInfo>>): seq<VarInfo> {
    if vars == [] then [] else Flatten(vars[..|vars| - 1]) + vars[|vars| - 1]
  }

  /** The CSP's variables are `infos`, in order, each with nothing pruned. */
  ghost predicate Holds(csp: Csp, infos: seq<VarInfo>)
    reads csp
  {
    |csp.doms| == |infos| && |csp.live| == |infos| && |csp.asg| == |infos| &&
    forall x :: 0 <= x < |infos| ==>
      csp.doms[x] == infos[x].dom && csp.asg[x] == infos[x].assignment && csp.live[x] == Elems(infos[x].dom)
  }

  predicate DistinctDoms(infos: seq<VarInfo>) {
    forall x :: 0 <= x < |infos| ==> Distinct(infos[x].dom)
  }

  /** The inner loop of lines 90-92: add_var for each variable of one row. */
  method RegisterRow(csp: Csp, row: seq<VarInfo>, ghost prefix: seq<VarInfo>)
    requires csp.Valid() && Holds(csp, prefix) && DistinctDoms(row)
    modifies csp
    ensures csp.Valid() && Holds(csp, prefix + row) && csp.cons == old(csp.cons)
  {
    for k := 0 to |row|
      invariant csp.Valid() && Holds(csp, prefix + row[..k]) && csp.cons == old(csp.cons)
    {
      assert (prefix + row[..k + 1]) == (prefix + row[..k]) + [row[k]];
      var _ := csp.AddVar(row[k]);
    }
    assert row[..|row|] == row;
  }

  /** Lines 89-92: a new CSP, with every variable added row by row. */
  method RegisterVars(vars: seq<seq<VarInfo>>) returns (csp: Csp)
    requires forall i :: 0 <= i < |vars| ==> DistinctDoms(vars[i])
    ensures fresh(csp) && csp.Valid() && Holds(csp, Flatten(vars)) && csp.cons == []
  {
    csp := new Csp();
    for i := 0 to |vars|
      invariant fresh(csp) && csp.Valid() && Holds(csp, Flatten(vars[..i])) && csp.cons == []
    {
      assert vars[..i + 1][..i] == vars[..i];
      RegisterRow(csp, vars[i], Flatten(vars[..i]));
    }
    assert vars[..|vars|] == vars;
  }

  /** Lines 94-95: add_constraint for every constraint, in order. */
  method RegisterCons(csp: Csp, cons: seq<Constraint>)
    requires csp.Valid() && csp.cons == [] && ConsWithin(cons, |csp.doms|)
    modifies csp
    ensures csp.Valid() && csp.cons == cons
    ensures csp.doms == old(csp.doms) && csp.live == old(csp.live) && csp.asg == old(csp.asg)
  {
    for k := 0 to |cons|
      invariant csp.Valid() && csp.cons == cons[..k]
      invariant csp.doms == old(csp.doms) && csp.live == old(csp.live) && csp.asg == old(csp.asg)
    {
      assert cons[..k + 1] == cons[..k] + [cons[k]];
      csp.AddConstraint(cons[k]);
    }
    assert cons[..|cons|] == cons;
  }

  /** Every variable of the element grid is one of its n * n cells. */
  lemma GridElemsWithin(grid: seq<seq<Cell>>)
    requires WellFormed(grid)
    ensures forall r :: 0 <= r < |grid| ==> RowIdsWithin(GridElems(grid)[r], |grid| * |grid|)
  {
    var n := |grid|;
    forall r, t | 0 <= r < n && 0 <= t < |GridElems(grid)[r]| && GridElems(grid)[r][t].Var?
      ensures GridElems(grid)[r][t].id < n * n
    {
      assert GridElems(grid)[r] == RowElems(grid[r], Domain(n), r * n);
      assert GridElems(grid)[r][t].id == r * n + t / 2;
      CellIndexBound(n, n, r, t / 2);
    }
  }

  /** Entry k of row i of m rows of n entries is below m * n. */
  lemma CellIndexBound(m: nat, n: nat, i: nat, k: nat)
    requires i < m && k < n
    ensures i * n + k < m * n
  {
    var d: nat := m - 1 - i;
    assert m * n == i * n + n + d * n;
  }

  /** Rows of n entries each flatten to |vars| * n entries. */
  lemma {:induction false} FlattenLength(vars: seq<seq<VarInfo>>, n: nat)
    requires forall i :: 0 <= i < |vars| ==> |vars[i]| == n
    ensures |Flatten(vars)| == |vars| * n
  {
    if vars != [] {
      var m := |vars|;
      FlattenLength(vars[..m - 1], n);
      assert m * n == (m - 1) * n + n;
    }
  }

  /** Entry k of row i sits at position i * n + k of the flattened rows. */
  lemma {:induction false} FlattenAt(vars: seq<seq<VarInfo>>, n: nat, i: nat, k: nat)
    requires forall r :: 0 <= r < |vars| ==> |vars[r]| == n
    requires i < |vars| && k < n
    ensures i * n + k < |Flatten(vars)| && Flatten(vars)[i * n + k] == vars[i][k]
  {
    var m := |vars|;
    var prefix := vars[..m - 1];
    FlattenLength(prefix, n);
    assert Flatten(vars) == Flatten(prefix) + vars[m - 1];
    assert m * n == (m - 1) * n + n;
    if i < m - 1 {
      FlattenAt(prefix, n, i, k);
      assert prefix[i] == vars[i];
    }
  }

  /** Every entry of every line is below `bound`. */
  predicate LinesWithin(lines: seq<seq<VarId>>, bound: nat) {
    forall l, a :: 0 <= l < |lines| && 0 <= a < |lines[l]| ==> lines[l][a] < bound
  }

  /** The board and its columns name only the n * n registered variables. */
  lemma BoardWithin(n: nat)
    ensures LinesWithin(Board(n), n * n) && LinesWithin(Transpose(Board(n)), n * n)
  {
    forall i, k | 0 <= i < n && 0 <= k < n
      ensures Board(n)[i][k] < n * n
    {
      CellIndexBound(n, n, i, k);
    }
  }

  /** The pair constraints mention only variables of the lines. */
  lemma {:induction false} PairConsWithin(lines: seq<seq<VarId>>, ne: set<seq<int>>, bound: nat)
    requires LinesWithin(lines, bound)
    ensures ConsWithin(PairCons(lines, ne), bound)
  {
    if lines != [] {
      var m := |lines|;
      PairConsWithin(lines[..m - 1], ne, bound);
      var line := lines[m - 1];
      var ps := Pairs(line);
      forall q | 0 <= q < |ps|
        ensures ScopeWithin(ps[q], bound)
      {
        PairsMembers(line, ps[q]);
      }
    }
  }

  lemma {:induction false} RowMarksWithin(row: seq<Element>, t: nat, bound: nat)
    requires Alternating(row) && t <= |row| && RowIdsWithin(row, bound)
    ensures ConsWithin(RowMarks(row, t), bound)
  {
    if t > 0 {
      RowMarksWithin(row, t - 1, bound);
    }
  }

  lemma {:induction false} GridMarksWithin(elems: seq<seq<Element>>, i: nat, bound: nat)
    requires AllAlternating(elems) && i <= |elems|
    requires forall r :: 0 <= r < |elems| ==> RowIdsWithin(elems[r], bound)
    ensures ConsWithin(GridMarks(elems, i), bound)
  {
    if i > 0 {
      GridMarksWithin(elems, i - 1, bound);
      RowMarksWithin(elems[i - 1], |elems[i - 1]|, bound);
    }
  }

  /** The registered variables, cell by cell: variable board[i][k] is the k-th number cell of row i. */
  ghost predicate CellsRegistered(csp: Csp, grid: seq<seq<Cell>>)
    requires WellFormed(grid)
    reads csp
  {
    var n := |grid|;
    BoardWithin(n);
    |csp.doms| == n * n && |csp.live| == n * n && |csp.asg| == n * n &&
    forall i, k :: 0 <= i < n && 0 <= k < n ==>
      csp.doms[Board(n)[i][k]] == GridVars(grid)[i][k].dom &&
      csp.asg[Board(n)[i][k]] == GridVars(grid)[i][k].assignment &&
      csp.live[Board(n)[i][k]] == Elems(GridVars(grid)[i][k].dom)
  }

  lemma CellsFromFlatten(csp: Csp, grid: seq<seq<Cell>>)
    requires WellFormed(grid) && Holds(csp, Flatten(GridVars(grid)))
    ensures CellsRegistered(csp, grid)
  {
    var n := |grid|;
    FlattenLength(GridVars(grid), n);
    forall i, k | 0 <= i < n && 0 <= k < n
      ensures Board(n)[i][k] < |Flatten(GridVars(grid))|
      ensures Flatten(GridVars(grid))[Board(n)[i][k]] == GridVars(grid)[i][k]
    {
      FlattenAt(GridVars(grid), n, i, k);
    }
  }

  /**
   * The variable of number cell k of row i: an open cell (0) is unassigned
   * over the whole domain 1..n, a prefilled number v has domain [v] and is
   * already assigned v; nothing is pruned yet.
   */
  lemma RegisteredCell(csp: Csp, grid: seq<seq<Cell>>, i: nat, k: nat)
    requires WellFormed(grid) && CellsRegistered(csp, grid) && i < |grid| && k < |grid|
    ensures i * |grid| + k < |csp.doms| && grid[i][2 * k].Num?
    ensures grid[i][2 * k].value == 0 ==>
      csp.doms[i * |grid| + k] == Domain(|grid|) && csp.asg[i * |grid| + k] == None &&
      csp.live[i * |grid| + k] == Elems(Domain(|grid|))
    ensures grid[i][2 * k].value != 0 ==>
      csp.doms[i * |grid| + k] == [grid[i][2 * k].value] && csp.asg[i * |grid| + k] == Some(grid[i][2 * k].value) &&
      csp.live[i * |grid| + k] == {grid[i][2 * k].value}
  {
    var n := |grid|;
    CellIndexBound(n, n, i, k);
    assert WellFormedRow(grid[i], n) && 2 * k < |grid[i]| && (2 * k) % 2 == 0;
    assert Board(n)[i][k] == i * n + k;
    assert GridVars(grid)[i][k] == CellVar(grid[i][2 * k], Domain(n));
    assert Elems([grid[i][2 * k].value]) == {grid[i][2 * k].value};
  }

  /** The constraints of model 1, in the order they are created. */
  function Model1Cons(grid: seq<seq<Cell>>): seq<Constraint>
    requires WellFormed(grid)
  {
    var n := |grid|;
    var ne := NotEqualTuples(Domain(n));
    GridMarks(GridElems(grid), n) + PairCons(Board(n), ne) + PairCons(Transpose(Board(n)), ne)
  }

  /** The constraints of model 2, in the order they are created. */
  function Model2Cons(grid: seq<seq<Cell>>): seq<Constraint>
    requires WellFormed(grid)
  {
    var n := |grid|;
    var perms := Perms(Domain(n));
    GridMarks(GridElems(grid), n) + PermCons(Board(n), perms) + PermCons(Transpose(Board(n)), perms)
  }

  lemma ConsWithinConcat(a: seq<Constraint>, b: seq<Constraint>, bound: nat)
    requires ConsWithin(a, bound) && ConsWithin(b, bound)
    ensures ConsWithin(a + b, bound)
  {
    forall k | 0 <= k < |a + b|
      ensures ScopeWithin((a + b)[k].scope, bound)
    {
      if k >= |a| {
        assert (a + b)[k] == b[k - |a|];
      }
    }
  }

  lemma BoardPairsWithin(n: nat, ne: set<seq<int>>)
    ensures ConsWithin(PairCons(Board(n), ne), n * n) && ConsWithin(PairCons(Transpose(Board(n)), ne), n * n)
  {
    BoardWithin(n);
    PairConsWithin(Board(n), ne, n * n);
    PairConsWithin(Transpose(Board(n)), ne, n * n);
  }

  /** The number of cells of an n by n board, as a natural number. */
  lemma SquareNat(n: nat) returns (bound: nat)
    ensures bound == n * n
  {
    bound := n * n;
  }

  /** Model 1's constraints mention only the n * n registered variables. */
  lemma Model1Within(n: nat, marks: seq<Constraint>)
    requires ConsWithin(marks, n * n)
    ensures ConsWithin(marks + PairCons(Board(n), NotEqualTuples(Domain(n))) +
                       PairCons(Transpose(Board(n)), NotEqualTuples(Domain(n))), n * n)
  {
    var ne := NotEqualTuples(Domain(n));
    var bound := SquareNat(n);
    BoardPairsWithin(n, ne);
    ConsWithinConcat(marks, PairCons(Board(n), ne), bound);
    ConsWithinConcat(marks + PairCons(Board(n), ne), PairCons(Transpose(Board(n)), ne), bound);
  }

  /** Model 2's constraints mention only the n * n registered variables. */
  lemma Model2Within(n: nat, marks: seq<Constraint>)
    requires ConsWithin(marks, n * n)
    ensures ConsWithin(marks + PermCons(Board(n), Perms(Domain(n))) +
                       PermCons(Transpose(Board(n)), Perms(Domain(n))), n * n)
  {
    var perms := Perms(Domain(n));
    var bound := SquareNat(n);
    BoardWithin(n);
    ConsWithinConcat(marks, PermCons(Board(n), perms), bound);
    ConsWithinConcat(marks + PermCons(Board(n), perms), PermCons(Transpose(Board(n)), perms), bound);
  }

  lemma GridVarsDistinct(grid: seq<seq<Cell>>)
    requires WellFormed(grid)
    ensures forall i :: 0 <= i < |grid| ==> DistinctDoms(GridVars(grid)[i])
  {
  }

  /**
   * futoshiki_csp_model_1: a variable per number cell, a constraint per
   * order marker, then a not-equal constraint for every pair of cells of
   * every row and every column.
   */
  method FutoshikiModel1(grid: seq<seq<Cell>>) returns (csp: Csp, board: seq<seq<VarId>>)
    requires WellFormed(grid)
    ensures fresh(csp) && csp.Valid()
    ensures board == Board(|grid|) && CellsRegistered(csp, grid)
    ensures csp.cons == Model1Cons(grid)
  {
    var n := |grid|;
    var vars, elems;
    vars, board, elems := RecordVariables(grid);
    var cons := RecordMarks(elems);
    var ne := NotEqualTuples(Domain(n));
    cons := AddPairConstraints(cons, board, ne);
    var columns := Columns(board);
    cons := AddPairConstraints(cons, columns, ne);
    GridVarsDistinct(grid);
    csp := RegisterVars(vars);
    CellsFromFlatten(csp, grid);
    GridElemsWithin(grid);
    GridMarksWithin(elems, n, n * n);
    Model1Within(n, GridMarks(elems, n));
    RegisterCons(csp, cons);
  }

  /**
   * futoshiki_csp_model_2: a variable per number cell, a constraint per
   * order marker, then one all-different constraint over every row and
   * every column, satisfied by the permutations of the domain.
   */
  method FutoshikiModel2(grid: seq<seq<Cell>>) returns (csp: Csp, board: seq<seq<VarId>>)
    requires WellFormed(grid)
    ensures fresh(csp) && csp.Valid()
    ensures board == Board(|grid|) && CellsRegistered(csp, grid)
    ensures csp.cons == Model2Cons(grid)
  {
    var n := |grid|;
    var vars, elems;
    vars, board, elems := RecordVariables(grid);
    var cons := RecordMarks(elems);
    var perms := Perms(Domain(n));
    cons := AddPermConstraints(cons, board, perms);
    var columns := Columns(board);
    cons := AddPermConstraints(cons, columns, perms);
    GridVarsDistinct(grid);
    csp := RegisterVars(vars);
    CellsFromFlatten(csp, grid);
    GridElemsWithin(grid);
    GridMarksWithin(elems, n, n * n);
    Model2Within(n, GridMarks(elems, n));
    RegisterCons(csp, cons);
  }

  /** Each pair of cells of a line gets its not-equal constraint. */
  lemma {:induction false} PairInPairCons(lines: seq<seq<VarId>>, ne: set<seq<int>>, l: nat, a: nat, b: nat)
    requires l < |lines| && a < b < |lines[l]|
    ensures Constraint([lines[l][a], lines[l][b]], ne) in PairCons(lines, ne)
  {
    var m := |lines|;
    var prefix, line := lines[..m - 1], lines[m - 1];
    assert PairCons(lines, ne) == PairCons(prefix, ne) + LinePairCons(line, ne);
    if l < m - 1 {
      assert prefix[l] == lines[l];
      PairInPairCons(prefix, ne, l, a, b);
    } else {
      PairsMembers(line, [line[a], line[b]]);
      var q :| 0 <= q < |Pairs(line)| && Pairs(line)[q] == [line[a], line[b]];
      assert LinePairCons(line, ne)[q] == Constraint([line[a], line[b]], ne);
    }
  }

  /** Every pair constraint is the not-equal constraint of two cells of one line. */
  lemma {:induction false} PairConsSource(lines: seq<seq<VarId>>, ne: set<seq<int>>, c: Constraint)
    returns (l: nat, a: nat, b: nat)
    requires c in PairCons(lines, ne)
    ensures l < |lines| && a < b < |lines[l]| && c == Constraint([lines[l][a], lines[l][b]], ne)
  {
    var m := |lines|;
    var prefix, line := lines[..m - 1], lines[m - 1];
    assert PairCons(lines, ne) == PairCons(prefix, ne) + LinePairCons(line, ne);
    if c in PairCons(prefix, ne) {
      l, a, b := PairConsSource(prefix, ne, c);
      assert prefix[l] == lines[l];
    } else {
      var q :| 0 <= q < |LinePairCons(line, ne)| && LinePairCons(line, ne)[q] == c;
      PairsMembers(line, c.scope);
      l := m - 1;
      a, b :| 0 <= a < b < |line| && c.scope == [line[a], line[b]];
    }
  }

  /** Model 1's line constraints are exactly one not-equal constraint per pair of cells of a line. */
  lemma PairConsMembers(lines: seq<seq<VarId>>, ne: set<seq<int>>, c: Constraint)
    ensures c in PairCons(lines, ne) <==>
      exists l, a, b :: 0 <= l < |lines| && 0 <= a < b < |lines[l]| && c == Constraint([lines[l][a], lines[l][b]], ne)
  {
    if c in PairCons(lines, ne) {
      var l, a, b := PairConsSource(lines, ne, c);
    }
    if exists l, a, b :: 0 <= l < |lines| && 0 <= a < b < |lines[l]| && c == Constraint([lines[l][a], lines[l][b]], ne) {
      var l, a, b :| 0 <= l < |lines| && 0 <= a < b < |lines[l]| && c == Constraint([lines[l][a], lines[l][b]], ne);
      PairInPairCons(lines, ne, l, a, b);
    }
  }

  /** With m cells per line, model 1 adds m(m-1)/2 constraints per line. */
  lemma {:induction false} PairConsCount(lines: seq<seq<VarId>>, ne: set<seq<int>>, m: nat)
    requires forall l :: 0 <= l < |lines| ==> |lines[l]| == m
    ensures |PairCons(lines, ne)| == |lines| * (m * (m - 1) / 2)
  {
    if lines != [] {
      var k := |lines|;
      var perLine := m * (m - 1) / 2;
      PairConsCount(lines[..k - 1], ne, m);
      PairsCount(lines[k - 1]);
      assert |PairCons(lines, ne)| == |PairCons(lines[..k - 1], ne)| + |LinePairCons(lines[k - 1], ne)|;
      MulSucc(k, perLine);
    }
  }

  lemma MulSucc(k: nat, p: int)
    requires k > 0
    ensures (k - 1) * p + p == k * p
  {
  }

  /** Any two cells of one line take different values of the domain. */
  predicate LineDistinct(line: seq<VarId>, dom: seq<int>, s: seq<int>) {
    forall a, b :: 0 <= a < b < |line| ==>
      line[a] < |s| && line[b] < |s| && s[line[a]] in dom && s[line[b]] in dom && s[line[a]] != s[line[b]]
  }

  /** On every line, any two cells of the assignment take different values of the domain. */
  predicate LinesDistinct(lines: seq<seq<VarId>>, dom: seq<int>, s: seq<int>) {
    forall l :: 0 <= l < |lines| ==> LineDistinct(lines[l], dom, s)
  }

  /** Two cells of a line differ, within the domain, once the line's not-equal constraints hold. */
  lemma NotEqualPair(lines: seq<seq<VarId>>, dom: seq<int>, s: seq<int>, l: nat, a: nat, b: nat)
    requires IsSolution(PairCons(lines, NotEqualTuples(dom)), s)
    requires l < |lines| && a < b < |lines[l]|
    ensures lines[l][a] < |s| && lines[l][b] < |s|
    ensures s[lines[l][a]] in dom && s[lines[l][b]] in dom && s[lines[l][a]] != s[lines[l][b]]
  {
    var ne := NotEqualTuples(dom);
    var cons := PairCons(lines, ne);
    PairInPairCons(lines, ne, l, a, b);
    var k :| 0 <= k < |cons| && cons[k] == Constraint([lines[l][a], lines[l][b]], ne);
    assert ScopeWithin(cons[k].scope, |s|);
    assert Project(s, cons[k].scope) == [s[lines[l][a]], s[lines[l][b]]];
  }

  /** The k-th not-equal constraint holds when its two cells differ within the domain. */
  lemma NotEqualConstraint(lines: seq<seq<VarId>>, dom: seq<int>, s: seq<int>, k: nat)
    requires LinesWithin(lines, |s|) && k < |PairCons(lines, NotEqualTuples(dom))|
    requires LinesDistinct(lines, dom, s)
    ensures var c := PairCons(lines, NotEqualTuples(dom))[k];
      ScopeWithin(c.scope, |s|) && Check(c, Project(s, c.scope))
  {
    var c := PairCons(lines, NotEqualTuples(dom))[k];
    var l, a, b := PairConsSource(lines, NotEqualTuples(dom), c);
    assert LineDistinct(lines[l], dom, s);
    assert Project(s, c.scope) == [s[lines[l][a]], s[lines[l][b]]];
  }

  lemma NotEqualSound(lines: seq<seq<VarId>>, dom: seq<int>, s: seq<int>)
    requires LinesWithin(lines, |s|) && IsSolution(PairCons(lines, NotEqualTuples(dom)), s)
    ensures LinesDistinct(lines, dom, s)
  {
    forall l | 0 <= l < |lines| ensures LineDistinct(lines[l], dom, s) {
      forall a, b | 0 <= a < b < |lines[l]|
        ensures lines[l][a] < |s| && lines[l][b] < |s|
        ensures s[lines[l][a]] in dom && s[lines[l][b]] in dom && s[lines[l][a]] != s[lines[l][b]]
      {
        NotEqualPair(lines, dom, s, l, a, b);
      }
    }
  }

  lemma NotEqualComplete(lines: seq<seq<VarId>>, dom: seq<int>, s: seq<int>)
    requires LinesWithin(lines, |s|) && LinesDistinct(lines, dom, s)
    ensures IsSolution(PairCons(lines, NotEqualTuples(dom)), s)
  {
    var cons := PairCons(lines, NotEqualTuples(dom));
    forall k | 0 <= k < |cons|
      ensures ScopeWithin(cons[k].scope, |s|) && Check(cons[k], Project(s, cons[k].scope))
    {
      NotEqualConstraint(lines, dom, s, k);
    }
  }

  /**
   * A full assignment satisfies every not-equal constraint of the lines
   * exactly when, on every line, any two cells take different values of
   * the domain.
   */
  lemma NotEqualSolutions(lines: seq<seq<VarId>>, dom: seq<int>, s: seq<int>)
    requires LinesWithin(lines, |s|)
    ensures IsSolution(PairCons(lines, NotEqualTuples(dom)), s) <==> LinesDistinct(lines, dom, s)
  {
    if IsSolution(PairCons(lines, NotEqualTuples(dom)), s) {
      NotEqualSound(lines, dom, s);
    }
    if LinesDistinct(lines, dom, s) {
      NotEqualComplete(lines, dom, s);
    }
  }

  /**
   * A full assignment satisfies every all-different constraint of the lines
   * exactly when every line takes each domain value exactly as often as the
   * domain holds it.
   */
  lemma PermSolutions(lines: seq<seq<VarId>>, dom: seq<int>, s: seq<int>)
    requires LinesWithin(lines, |s|)
    ensures IsSolution(PermCons(lines, Perms(dom)), s) <==>
      forall l :: 0 <= l < |lines| ==> multiset(Project(s, lines[l])) == multiset(dom)
  {
    var cons := PermCons(lines, Perms(dom));
    forall l | 0 <= l < |lines|
      ensures Project(s, lines[l]) in Perms(dom) <==> multiset(Project(s, lines[l])) == multiset(dom)
    {
      PermsMembers(dom, Project(s, lines[l]));
    }
    assert forall l :: 0 <= l < |lines| ==> cons[l].scope == lines[l];
  }

  /**
   * One line of n cells over 1..n, n other than 1: its cells differ pairwise
   * within the domain exactly when it is an arrangement of the domain. (A
   * line of one cell has no pair, so only the arrangement pins its value.)
   */
  lemma LineRuleAgrees(line: seq<VarId>, n: nat, s: seq<int>)
    requires n != 1 && |line| == n && forall a :: 0 <= a < n ==> line[a] < |s|
    ensures LineDistinct(line, Domain(n), s) <==> multiset(Project(s, line)) == multiset(Domain(n))
  {
    var t := Project(s, line);
    ArrangementsOfDomain(t, n);
    assert forall a :: 0 <= a < n ==> t[a] == s[line[a]];
    if n > 0 && forall a, b :: 0 <= a < b < n ==>
         s[line[a]] in Domain(n) && s[line[b]] in Domain(n) && s[line[a]] != s[line[b]] {
      forall a | 0 <= a < n ensures t[a] in Domain(n) {
        if a < n - 1 {
          assert s[line[a]] in Domain(n) && s[line[n - 1]] in Domain(n);
        } else {
          assert s[line[0]] in Domain(n) && s[line[a]] in Domain(n);
        }
      }
    }
  }

  /** On lines of n cells, n other than 1, model 1's and model 2's line constraints accept the same assignments. */
  lemma LineConstraintsAgree(lines: seq<seq<VarId>>, n: nat, s: seq<int>)
    requires n != 1 && LinesWithin(lines, |s|) && forall l :: 0 <= l < |lines| ==> |lines[l]| == n
    ensures IsSolution(PairCons(lines, NotEqualTuples(Domain(n))), s) <==>
            IsSolution(PermCons(lines, Perms(Domain(n))), s)
  {
    NotEqualSolutions(lines, Domain(n), s);
    PermSolutions(lines, Domain(n), s);
    LinesRuleAgrees(lines, n, s);
  }

  /** Every line's cells differ pairwise within 1..n exactly when every line is an arrangement of 1..n. */
  lemma LinesRuleAgrees(lines: seq<seq<VarId>>, n: nat, s: seq<int>)
    requires n != 1 && LinesWithin(lines, |s|) && forall l :: 0 <= l < |lines| ==> |lines[l]| == n
    ensures LinesDistinct(lines, Domain(n), s) <==>
            forall l :: 0 <= l < |lines| ==> multiset(Project(s, lines[l])) == multiset(Domain(n))
  {
    forall l | 0 <= l < |lines|
      ensures LineDistinct(lines[l], Domain(n), s) <==> multiset(Project(s, lines[l])) == multiset(Domain(n))
    {
      LineRuleAgrees(lines[l], n, s);
    }
  }

  /** An assignment satisfies two constraint lists one after the other exactly when it satisfies each. */
  lemma SolutionConcat(a: seq<Constraint>, b: seq<Constraint>, s: seq<int>)
    ensures IsSolution(a + b, s) <==> IsSolution(a, s) && IsSolution(b, s)
  {
    if IsSolution(a, s) && IsSolution(b, s) {
      forall k | 0 <= k < |a + b|
        ensures ScopeWithin((a + b)[k].scope, |s|) && Check((a + b)[k], Project(s, (a + b)[k].scope))
      {
        if k >= |a| {
          assert (a + b)[k] == b[k - |a|];
        }
      }
    }
    if IsSolution(a + b, s) {
      forall k | 0 <= k < |a|
        ensures ScopeWithin(a[k].scope, |s|) && Check(a[k], Project(s, a[k].scope))
      {
        assert (a + b)[k] == a[k];
      }
      forall k | 0 <= k < |b|
        ensures ScopeWithin(b[k].scope, |s|) && Check(b[k], Project(s, b[k].scope))
      {
        assert (a + b)[|a| + k] == b[k];
      }
    }
  }

  /** With the same marker constraints in front, the two models accept the same assignments of an n by n grid. */
  lemma ModelsAgree(n: nat, marks: seq<Constraint>, s: seq<int>)
    requires n != 1 && |s| == n * n
    ensures IsSolution(marks + PairCons(Board(n), NotEqualTuples(Domain(n))) +
                       PairCons(Transpose(Board(n)), NotEqualTuples(Domain(n))), s) <==>
            IsSolution(marks + PermCons(Board(n), Perms(Domain(n))) +
                       PermCons(Transpose(Board(n)), Perms(Domain(n))), s)
  {
    var ne, perms := NotEqualTuples(Domain(n)), Perms(Domain(n));
    BoardWithin(n);
    LineConstraintsAgree(Board(n), n, s);
    LineConstraintsAgree(Transpose(Board(n)), n, s);
    SolutionConcat(marks, PairCons(Board(n), ne), s);
    SolutionConcat(marks + PairCons(Board(n), ne), PairCons(Transpose(Board(n)), ne), s);
    SolutionConcat(marks, PermCons(Board(n), perms), s);
    SolutionConcat(marks + PermCons(Board(n), perms), PermCons(Transpose(Board(n)), perms), s);
  }

  /**
   * The two builders encode the same puzzle: on any grid of other than one
   * row, a full assignment of its n * n cells satisfies model 1's
   * constraints exactly when it satisfies model 2's.
   */
  lemma ModelsSameSolutions(grid: seq<seq<Cell>>, s: seq<int>)
    requires WellFormed(grid) && |grid| != 1 && |s| == |grid| * |grid|
    ensures IsSolution(Model1Cons(grid), s) <==> IsSolution(Model2Cons(grid), s)
  {
    ModelsAgree(|grid|, GridMarks(GridElems(grid), |grid|), s);
  }
}
