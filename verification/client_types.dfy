/** The frontend's `Restaurant` record (`types/Restaurant.ts`). */
module ClientTypes {
  import opened Results

  /** `id` is `number | null` and optional: `None` stands for both `null`
      and absent. The optional strings are `None` when absent. */
  datatype Restaurant = Restaurant(
    id: Option<int>,
    image: Option<string>,
    name: string, street: string, city: string, state: string, zip: string, contact: string,
    createdAt: Option<string>, updatedAt: Option<string>)

  /** `if (id)` on an id: present and not zero. */
  predicate IdTruthy(id: Option<int>) {
    id.Some? && id.value != 0
  }
}
