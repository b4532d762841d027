/** The game state the agent reads, as an explicit finite tree. The game engine
    that produces it (legal moves, applying a move, the terminal test, utilities
    and liberties) is not part of this model: each node records what the engine
    would answer for that position. */
module Isolation {
  import opened ExtReal

  type PlayerId = p: int | 0 <= p <= 1

  function Opponent(p: PlayerId): PlayerId {
    1 - p
  }

  /** A board cell, as the engine's integer index. */
  type Cell = int

  /** A move is identified by the destination cell. */
  type Action = Cell

  datatype Option<T> = None | Some(value: T)

  /** The board dimensions `_WIDTH` and `_HEIGHT`. */
  datatype Board = Board(width: nat, height: nat)

  /** One position. `moves` lists `actions()` in the engine's order, each
      paired with `result(action)`. `liberties0` and `liberties1` are
      `liberties(locs[0])` and `liberties(locs[1])`. */
  datatype Node = Node(
    terminal: bool,
    utility0: Ext,
    utility1: Ext,
    player: PlayerId,
    plyCount: int,
    loc0: Cell,
    loc1: Cell,
    liberties0: seq<Cell>,
    liberties1: seq<Cell>,
    moves: seq<Move>)
  {
    /** `utility(p)`; only read at terminal nodes. */
    function Utility(p: PlayerId): Ext {
      if p == 0 then utility0 else utility1
    }

    /** `locs[p]` */
    function Loc(p: PlayerId): Cell {
      if p == 0 then loc0 else loc1
    }

    /** `liberties(locs[p])` */
    function Liberties(p: PlayerId): seq<Cell> {
      if p == 0 then liberties0 else liberties1
    }

    /** `actions()` */
    function Actions(): (r: seq<Action>)
      ensures |r| == |moves|
      ensures forall i :: 0 <= i < |moves| ==> r[i] == moves[i].action
    {
      seq(|moves|, i requires 0 <= i < |moves| => moves[i].action)
    }
  }

  datatype Move = Move(action: Action, next: Node)
}
