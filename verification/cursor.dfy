/**
  The selection logic of the input loop in src/main.rs: one key moves the
  cursor `(sel_x, sel_y)` inside `WIDTH` x `HEIGHT`, triggers a grid action at
  the cursor, or ends the loop. Terminal I/O is left out; the grid actions the
  loop calls (`generate`/`reveal`, `toggle_flag`) are returned as opaque
  effects, because their code is not part of this model.
 */
module Cursor {
  import GridModel

  const WIDTH: nat := 30
  const HEIGHT: nat := 20

  /** The keys the loop tells apart; `Quit` stands for both `'q'` and Esc. */
  datatype Key = Up | Down | Left | Right | Space | F | Quit | Other

  /** The cursor position: `x` is `sel_x`, `y` is `sel_y`. */
  datatype Selection = Selection(x: nat, y: nat)

  /** The grid call a key makes at the cursor, if any. */
  datatype Effect =
    | NoEffect
    /** `generate` at the cursor unless the grid is generated, then `reveal` there. */
    | Reveal(at: Selection)
    /** `toggle_flag` at the cursor. */
    | ToggleFlag(at: Selection)

  /** The result of one key: the loop ends, or goes on with a new cursor and an effect. */
  datatype Transition = Exit | Continue(sel: Selection, effect: Effect)

  /** The cursor at the start of the loop. */
  const Origin := Selection(0, 0)

  predicate InBounds(s: Selection) {
    s.x < WIDTH && s.y < HEIGHT
  }

  /** One pass through the key `match`. */
  function Step(s: Selection, k: Key): (t: Transition)
    ensures t.Exit? <==> k == Quit
    ensures InBounds(s) && t.Continue? ==> InBounds(t.sel)
    ensures k == Up ==> t.sel.x == s.x && t.sel.y == (if s.y > 0 then s.y - 1 else s.y)
    ensures k == Down ==> t.sel.x == s.x && t.sel.y == (if s.y < HEIGHT - 1 then s.y + 1 else s.y)
    ensures k == Left ==> t.sel.y == s.y && t.sel.x == (if s.x > 0 then s.x - 1 else s.x)
    ensures k == Right ==> t.sel.y == s.y && t.sel.x == (if s.x < WIDTH - 1 then s.x + 1 else s.x)
    ensures k in {Space, F, Other} ==> t.sel == s
    ensures t.Continue? && t.effect != NoEffect ==> t.effect.at == s
    ensures t.Continue? ==> (t.effect.Reveal? <==> k == Space) && (t.effect.ToggleFlag? <==> k == F)
  {
    match k
    case Quit => Exit
    case Up => Continue(if s.y > 0 then s.(y := s.y - 1) else s, NoEffect)
    case Down => Continue(if s.y < HEIGHT - 1 then s.(y := s.y + 1) else s, NoEffect)
    case Left => Continue(if s.x > 0 then s.(x := s.x - 1) else s, NoEffect)
    case Right => Continue(if s.x < WIDTH - 1 then s.(x := s.x + 1) else s, NoEffect)
    case Space => Continue(s, Reveal(s))
    case F => Continue(s, ToggleFlag(s))
    case Other => Continue(s, NoEffect)
  }

  /** The cursor after the loop has read `keys`, stopping at the first quit key. */
  function Run(s: Selection, keys: seq<Key>): (r: Selection)
    ensures InBounds(s) ==> InBounds(r)
    decreases |keys|
  {
    if |keys| == 0 then s
    else match Step(s, keys[0])
      case Exit => s
      case Continue(next, _) => Run(next, keys[1..])
  }

  /** Whether the loop ends while reading `keys`. */
  predicate Quits(keys: seq<Key>) {
    Quit in keys
  }

  /** `n` presses of the key `k`. */
  function Presses(k: Key, n: nat): (keys: seq<Key>)
    ensures |keys| == n
    ensures forall i :: 0 <= i < n ==> keys[i] == k
  {
    seq(n, _ => k)
  }

  /** Up undoes Down away from the bottom edge, and Down undoes Up away from the top edge. */
  lemma UpDownInverse(s: Selection)
    requires InBounds(s)
    ensures s.y < HEIGHT - 1 ==> Step(Step(s, Down).sel, Up) == Continue(s, NoEffect)
    ensures s.y > 0 ==> Step(Step(s, Up).sel, Down) == Continue(s, NoEffect)
  {
  }

  /** Left undoes Right away from the right edge, and Right undoes Left away from the left edge. */
  lemma LeftRightInverse(s: Selection)
    requires InBounds(s)
    ensures s.x < WIDTH - 1 ==> Step(Step(s, Right).sel, Left) == Continue(s, NoEffect)
    ensures s.x > 0 ==> Step(Step(s, Left).sel, Right) == Continue(s, NoEffect)
  {
  }

  /** Running two key sequences is running the first, then the second, if the first does not quit. */
  lemma {:induction false} RunAppend(s: Selection, a: seq<Key>, b: seq<Key>)
    requires !Quits(a)
    ensures Run(s, a + b) == Run(Run(s, a), b)
    decreases |a|
  {
    if |a| > 0 {
      assert a[0] in a;
      assert (a + b)[0] == a[0];
      assert !Quits(a[1..]);
      assert (a + b)[1..] == a[1..] + b;
      var t := Step(s, a[0]);
      assert Run(s, a + b) == Run(t.sel, a[1..] + b);
      assert Run(s, a) == Run(t.sel, a[1..]);
      RunAppend(t.sel, a[1..], b);
    } else {
      assert a + b == b;
    }
  }

  /** Nothing after a quit key moves the cursor. */
  lemma {:induction false} RunStopsAtQuit(s: Selection, a: seq<Key>, b: seq<Key>)
    requires !Quits(a)
    ensures Run(s, a + [Quit] + b) == Run(s, a)
  {
    RunAppend(s, a, [Quit] + b);
    assert a + [Quit] + b == a + ([Quit] + b);
    assert Run(s, a + []) == Run(Run(s, a), []) by { RunAppend(s, a, []); }
    assert a + [] == a;
  }

  /** `n` presses of Right from column `s.x` reach column `s.x + n` while it is on the board. */
  lemma {:induction false} RunRights(s: Selection, n: nat)
    requires s.x + n < WIDTH
    ensures Run(s, Presses(Right, n)) == s.(x := s.x + n)
    decreases n
  {
    if n > 0 {
      assert Presses(Right, n)[1..] == Presses(Right, n - 1);
      RunRights(s.(x := s.x + 1), n - 1);
    }
  }

  /** `n` presses of Down from row `s.y` reach row `s.y + n` while it is on the board. */
  lemma {:induction false} RunDowns(s: Selection, n: nat)
    requires s.y + n < HEIGHT
    ensures Run(s, Presses(Down, n)) == s.(y := s.y + n)
    decreases n
  {
    if n > 0 {
      assert Presses(Down, n)[1..] == Presses(Down, n - 1);
      RunDowns(s.(y := s.y + 1), n - 1);
    }
  }

  /** A selection is reachable from the origin if and only if it is in bounds. */
  lemma Reachable(s: Selection)
    ensures InBounds(s) <==> exists keys :: Run(Origin, keys) == s
  {
    if InBounds(s) {
      var keys := Presses(Right, s.x) + Presses(Down, s.y);
      RunAppend(Origin, Presses(Right, s.x), Presses(Down, s.y));
      RunRights(Origin, s.x);
      RunDowns(Selection(s.x, 0), s.y);
      assert Run(Origin, keys) == s;
    }
  }

  /** The grid the loop builds: `Grid::new(HEIGHT, WIDTH)`, arguments in this order. */
  function GameGrid(): (g: GridModel.Grid)
    ensures g.largeur == HEIGHT && g.hauteur == WIDTH
    ensures GridModel.WellFormed(g)
  {
    GridModel.New(HEIGHT, WIDTH)
  }

  /**
    The cursor and the grid disagree on which side is which: the cursor can
    reach a column the grid does not have, and a Space there asks to reveal
    it. 25 presses of Right are such a key sequence: they reach `(25, 0)` on
    a grid of 20 columns.
   */
  lemma SelectionLeavesGrid()
    ensures exists keys :: var s := Run(Origin, keys);
      && InBounds(s)
      && s.x >= GameGrid().largeur
      && Step(s, Space) == Continue(s, Reveal(s))
  {
    var keys := Presses(Right, 25);
    RunRights(Origin, 25);
    assert Run(Origin, keys) == Selection(25, 0);
  }

  /** Every column the cursor reaches from `WIDTH` down to the grid's width lies outside the grid. */
  lemma ColumnsOffGrid(x: nat)
    requires GameGrid().largeur <= x < WIDTH
    ensures exists keys :: Run(Origin, keys).x == x && x >= |GameGrid().cells[0]|
  {
    RunRights(Origin, x);
    assert Run(Origin, Presses(Right, x)).x == x;
  }

  /** The grid has rows the cursor can never reach: rows `HEIGHT` to `WIDTH - 1`. */
  lemma RowsNeverSelected(keys: seq<Key>)
    ensures Run(Origin, keys).y < HEIGHT < GameGrid().hauteur
  {
  }

  /** The grid with the arguments in the order `Grid::new(largeur, hauteur)` expects. */
  function IntendedGrid(): (g: GridModel.Grid)
    ensures g.largeur == WIDTH && g.hauteur == HEIGHT
    ensures GridModel.WellFormed(g)
  {
    GridModel.New(WIDTH, HEIGHT)
  }

  /** With the intended grid, every selection the loop can reach names a cell, and every cell can be selected. */
  lemma SelectionInsideIntendedGrid(s: Selection)
    ensures (exists keys :: Run(Origin, keys) == s) <==>
      (s.y < |IntendedGrid().cells| && s.x < |IntendedGrid().cells[s.y]|)
  {
    Reachable(s);
  }
}
