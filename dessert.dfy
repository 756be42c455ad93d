/** `Dessert`: one entry of the dessert list. */
module Desserts {

  /** A list entry, decoded from `idMeal`, `strMeal` and `strMealThumb`. */
  datatype Dessert = Dessert(id: string, name: string, thumbnail: string)
}
