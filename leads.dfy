/**
 * A lead as the record store returns it (close_script.py:159, 164-165,
 * 180-183): its name and the custom attributes the report reads, each
 * `None` when the lead does not carry it.
 */
module Leads {
  import opened Wrappers

  datatype Lead = Lead(
    name: string,
    founded: Option<string>,
    revenue: Option<int>,
    state: Option<string>)
}
