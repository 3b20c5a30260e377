/** The store catalog (`productLocation.json`): one record per product
    with its place in the store. The catalog is read-only input to every
    stage; loading it from its file is not part of this model. */
module Catalog {

  /** A catalog entry: `nome_produto`, `corredor`, `secção`, `prateleira`,
      `caixa`, `coordenada_x`, `coordenada_y`. Coordinates are integers. */
  datatype Entry = Entry(
    name: string,
    aisle: string,
    section: string,
    shelf: string,
    bin: string,
    x: int,
    y: int)
}
