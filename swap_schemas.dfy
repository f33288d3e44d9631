/** Request bodies for the swap routes. */
module SwapSchemas {

  /** Body of `POST /swap-request`. */
  datatype SwapRequestCreate = SwapRequestCreate(mySlotId: int, theirSlotId: int)

  /** Both ids are declared with `gt=0`. */
  predicate ValidSwapCreate(data: SwapRequestCreate) {
    data.mySlotId > 0 && data.theirSlotId > 0
  }

  /** Body of `POST /swap-response/{id}`: one required flag choosing accept or reject. */
  datatype SwapResponseUpdate = SwapResponseUpdate(accept: bool)
}
