/** The value the server serialises into a work message. */
module Messages {
  import opened Life

  /**
   * The fields of the work dictionary: 'grade_fatia' (the board), 'tamanho'
   * (its side), 'linha_inicio' and 'linha_fim' (the rows to compute).
   */
  datatype WorkMessage = WorkMessage(grid: Grid, size: int, rowStart: int, rowEnd: int)

  /** The work for board `g` of side `n`: with a single worker, always the whole board. */
  function WorkFor(g: Grid, n: int): (m: WorkMessage)
    ensures m.grid == g && m.size == n
    ensures m.rowStart == 0 && m.rowEnd == n
  {
    WorkMessage(g, n, 0, n)
  }
}
