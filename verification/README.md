# Tic-tac-toe with history, and a filtered product table — a verified model

The application has two independent features. This model covers the logic inside both. It leaves out the rendering.

**Tic-tac-toe.** A board is nine squares, each empty, 'X' or 'O'.
- The win check tries eight fixed lines in order and returns the first line whose three squares hold the same mark.
- The draw check says whether every square is filled.
- The status line reports the winner if there is one, otherwise a draw on a full board, otherwise the player to move.
- A click on a square is ignored when the square is taken or the game is already won. Otherwise the board is copied and the mover's mark goes into the clicked square.

The game keeps a history of snapshots and a pointer to the one on display (`currentMove`).
- Playing a move discards the snapshots after the displayed one, appends the new board and displays it.
- Jumping sets the pointer.
- X moves when the pointer is even.
- The move list labels each earlier snapshot with the row and column of the square in which it first differs from the snapshot before it, except the first, which reads "game start".

**Product table.**
- The filter keeps the products whose lower-cased name contains the lower-cased search text. This step is skipped when the text is empty. When the "in stock only" box is checked, it then keeps only stocked products.
- The table emits one product row per product. A category header row goes in front of a product whenever its category differs from the previous product's.

Modules:
- `Wrappers`: `Option`.
- `TicTacToe` (`tictactoe.dfy`): cells, lines, win/draw checks, status, click rule.
- `GameHistory` (`game_history.dfy`): the `Game` class with the fields `history` and `currentMove`; the diff index and move labels; the well-played invariant of the history and the lemmas about it.
- `ProductFilter` (`product_filter.dfy`): products, lower-casing, substring search, the filters.
- `ProductTable` (`product_table.dfy`): the row builder and its properties.

The win check, the draw check, the diff index and the row builder are loops in the source. They are modelled as methods with loop invariants. The click copies the board into a fresh array and writes one square. The game state is a class whose methods update `history` and `currentMove`. The filters are functions.

Behaviour taken from the code as written:
- The move list shows the plain "you are at move" entry for the last snapshot of the history (`history.length - 1`), not for the displayed one. It still names the player from the displayed move's parity.
- The row and column of a move label use `Math.floor` and JavaScript's `%`. On two equal snapshots (diff index -1) the label would therefore read row -1, column -1. A well-played history never has two equal consecutive snapshots.
- A square beyond the end of the second array reads as `undefined`, which differs from every square of the first array.

## Model

| member | source | states |
|---|---|---|
| `TicTacToe.CalculateWinner` | src/App.js:88-106 | the result is one of the eight lines, with three equal non-empty marks, and no earlier line in the list is won; None exactly when no line is won |
| `TicTacToe.CalculateDraw` | src/App.js:78-87 | true exactly when no square is empty |
| `TicTacToe.BoardStatus` | src/App.js:28-41 | the mark of the first won line in list order when some line is won, even on a full board; Draw when no line is won and the board is full; otherwise the player to move |
| `TicTacToe.HandleClick` | src/App.js:14-26 | ignored exactly when the square is taken or a line is already won; otherwise the new board has the mover's mark (X when X is next) in the clicked square and equals the old board everywhere else |
| `GameHistory.FindDiffIndex` | src/App.js:70-77 | the least index where the arrays differ (a missing square of the second array counts as differing), or -1 when every square of the first array matches |
| `GameHistory.FloorDiv3` | src/App.js:140 | the quotient rounded down: 3q <= n < 3q + 3 |
| `GameHistory.JsRemainder3` | src/App.js:141 | a remainder congruent to n modulo 3 with the sign of n and magnitude below 3 |
| `GameHistory.MoveDescription` | src/App.js:129-150 | last snapshot: the plain entry with the player to move; move 0: game start; otherwise row and column in 0..2 naming the first differing square, or (-1, -1) for equal snapshots; on a well-played history the named square was empty before and holds the mark of the player who moved |
| `GameHistory.Game.constructor` | src/App.js:109-110 | a new game holds one empty board, displays move 0 and is well played |
| `GameHistory.Game.CurrentSquares` | src/App.js:112 | the displayed board is history[currentMove]; on a well-played history it has exactly currentMove filled squares (9 - currentMove empty) |
| `GameHistory.Game.XIsNext` | src/App.js:113 | on a well-played history, X is next exactly when the displayed board has as many X's as O's |
| `GameHistory.Game.HandlePlay` | src/App.js:115-120 | the history becomes the entries up to the displayed one followed by the new board, and the pointer moves to that new last entry |
| `GameHistory.Game.JumpTo` | src/App.js:122-124 | the pointer becomes the given move and the history is unchanged |
| `GameHistory.Game.Click` | src/App.js:14-25 | a click on a taken square or a won board changes neither history nor pointer; otherwise the history is truncated after the displayed move and the displayed board with the mover's mark is appended and displayed; a well-played history stays well played |
| `GameHistory.PlayKeepsWellPlayed` | src/App.js:115-120 | truncating after any snapshot of a well-played history and appending a legal move from it gives a well-played history |
| `GameHistory.MarkCounts` | src/App.js:109-113 | snapshot k of a well-played history holds (k+1)/2 X's, k/2 O's and 9-k empty squares |
| `GameHistory.AtMostNineMoves` | src/App.js:109-120 | a well-played history holds at most ten snapshots |
| `GameHistory.TurnParity` | src/App.js:113 | on a well-played history the pointer is even exactly when the displayed board has as many X's as O's |
| `GameHistory.WinnerJustMoved` | src/App.js:28-31 | every line won on snapshot k of a well-played history carries the mark of the player who made move k, so the announced winner is the last mover |
| `ProductFilter.Includes` | src/App.js:243 | true exactly when the pattern occurs in the text at some offset |
| `ProductFilter.Filter` | src/App.js:242-244 | the result is an order-preserving subsequence of the input and holds every accepted element as often as the input does, and no other element |
| `ProductFilter.FilteredProducts` | src/App.js:239-256 | an order-preserving subsequence of the products; every product kept matches the search text (when it is not empty) and is stocked (when the box is checked); every product meeting both conditions is kept, as often as it occurs; an empty text with the box unchecked returns the input unchanged |
| `ProductFilter.SubsequenceTransitive` | src/App.js:250-256 | filtering a subsequence again yields a subsequence of the original list |
| `ProductFilter.PeaFindsPeas` | src/App.js:241-244 | searching the catalogue for "pea" with the box unchecked shows Peas alone |
| `ProductFilter.InStockDropsUnstocked` | src/App.js:273-280 | with the box checked, Passionfruit and Pumpkin are never shown |
| `ProductTable.BuildRows` | src/App.js:166-180 | the rows `TableRows` defines; their product rows are exactly the input, in order; each product row sits under its own category's header; every header is followed by a product of its category and, unless first, preceded by a product of another category |
| `ProductTable.ProductRowsInOrder` | src/App.js:176-178 | the product rows of the table are exactly the input products, in order |
| `ProductTable.RowsUnderOwnHeader` | src/App.js:171-175 | the nearest header above each product row names that product's category |
| `ProductTable.HeadersMarkChanges` | src/App.js:171-175 | a header appears only in front of a product whose category differs from the previous product's |
| `ProductTable.OneHeaderPerCategory` | src/App.js:166-180 | when products of one category are contiguous, each category present gets exactly one header and absent ones none |
| `ProductTable.VegetablesHeaderOnce` | src/App.js:273-280 | the catalogue shows the "Vegetables" header once |

## Left out

- Rendering: JSX, the `Square`, `ProductRow`, `ProductCategoryRow` and `SearchBar` components, CSS classes, the red name of unstocked products, React keys.
- The highlighting of the winning squares (`winner.includes(index)`) is presentation only.
- React `useState` and event wiring. State is an explicit class (the game) or explicit parameters (the search text and the stock box).
- The "Toggle Moves" button, `ascendingOrder` and `moves.reverse()` only change the display order of the move list.
- The text of move labels and status lines. The model returns their data (mark, move number, row, column) instead of strings.
- ProductFilter.ToLower: models `toLowerCase` for the ASCII letters A-Z only, because full Unicode case mapping is a library routine outside this model.
- GameHistory.Game.JumpTo: requires a move inside the history, because the source only calls it from a link rendered for an existing move.
- GameHistory.Game.Click: requires a square index 0..8, because the source only creates click handlers for the nine rendered squares.
- The `PRODUCTS` constant is used only as example data (`Catalogue`).
