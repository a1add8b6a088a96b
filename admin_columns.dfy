/**
 * The admin event list's sortable columns: the plugin registers its three
 * formatted columns (category, start date, end date) as sortable, each by
 * the post-meta key named after the plugin's post type, and leaves every
 * column the host already registered alone.
 */
module AdminColumns {

  /** The column keys the plugin makes sortable. */
  const CategoryColumn: string := "event_category_fmt"
  const StartDateColumn: string := "event_start_date_fmt"
  const EndDateColumn: string := "event_end_date_fmt"

  const SortableKeys: set<string> := {CategoryColumn, StartDateColumn, EndDateColumn}

  /** The post type the plugin registers, from which the meta keys are named. */
  const PluginPostType: string := "nds_wp_event"

  /** The sort key the plugin gives one of its own columns: the post type, then a suffix. */
  function SortKey(postType: string, column: string): string
    requires column in SortableKeys
  {
    if column == CategoryColumn then postType + "_category"
    else if column == StartDateColumn then postType + "_start_date"
    else postType + "_end_date"
  }

  /**
   * The sortable-column map after registration, defined key by key: the
   * three plugin columns map to their sort keys, every other registered
   * column keeps its value.
   */
  function SortableColumns(columns: map<string, string>, postType: string): (r: map<string, string>)
    ensures r.Keys == columns.Keys + SortableKeys
    ensures r[CategoryColumn] == postType + "_category"
    ensures r[StartDateColumn] == postType + "_start_date"
    ensures r[EndDateColumn] == postType + "_end_date"
    ensures forall k | k in columns && k !in SortableKeys :: r[k] == columns[k]
  {
    map k | k in columns.Keys + SortableKeys ::
      if k in SortableKeys then SortKey(postType, k) else columns[k]
  }

  /** The plugin's `events_column_register_sortable` handler: three assignments into the column map, which is then returned. */
  method EventsColumnRegisterSortable(columns: map<string, string>, postType: string)
    returns (sortable: map<string, string>)
    ensures sortable == SortableColumns(columns, postType)
  {
    sortable := columns;
    sortable := sortable[CategoryColumn := postType + "_category"];
    sortable := sortable[StartDateColumn := postType + "_start_date"];
    sortable := sortable[EndDateColumn := postType + "_end_date"];
    assert sortable.Keys == SortableColumns(columns, postType).Keys;
    forall k | k in sortable ensures sortable[k] == SortableColumns(columns, postType)[k] { }
  }

  /** Registering a second time changes nothing. */
  lemma RegisterIdempotent(columns: map<string, string>, postType: string)
    ensures SortableColumns(SortableColumns(columns, postType), postType) == SortableColumns(columns, postType)
  {
    var once := SortableColumns(columns, postType);
    var twice := SortableColumns(once, postType);
    assert twice.Keys == once.Keys;
    forall k | k in twice ensures twice[k] == once[k] { }
  }

  /** With the plugin's own post type the three columns sort by its meta keys. */
  lemma PluginSortKeys(columns: map<string, string>)
    ensures SortableColumns(columns, PluginPostType)[StartDateColumn] == "nds_wp_event_start_date"
    ensures SortableColumns(columns, PluginPostType)[EndDateColumn] == "nds_wp_event_end_date"
    ensures SortableColumns(columns, PluginPostType)[CategoryColumn] == "nds_wp_event_category"
  {
  }
}
