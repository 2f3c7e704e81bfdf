/** The metadata filter handed to the vector store with every retrieval query. */
module ChromaStore {
  import opened Prelude

  /** Python truthiness of an optional string: present and non-empty. */
  predicate Truthy(s: Option<string>) {
    s.Some? && s.value != ""
  }

  /**
   * The filter `safe_where_filter` builds: `course_id` and `module_id` keys exactly
   * for the truthy arguments, with their values, and None instead of an empty filter.
   */
  function WhereFilter(courseId: Option<string>, moduleId: Option<string>): (r: Option<map<string, string>>)
    ensures r.None? <==> !Truthy(courseId) && !Truthy(moduleId)
    ensures r.Some? ==> ("course_id" in r.value <==> Truthy(courseId))
    ensures r.Some? ==> ("module_id" in r.value <==> Truthy(moduleId))
    ensures r.Some? && "course_id" in r.value ==> r.value["course_id"] == courseId.value
    ensures r.Some? && "module_id" in r.value ==> r.value["module_id"] == moduleId.value
    ensures r.Some? ==> r.value.Keys <= {"course_id", "module_id"}
  {
    var withCourse := if Truthy(courseId) then map["course_id" := courseId.value] else map[];
    var filter := if Truthy(moduleId) then withCourse["module_id" := moduleId.value] else withCourse;
    if |filter| == 0 then None else Some(filter)
  }

  /** `safe_where_filter`: conditional insertion of the two keys into an empty dict. */
  method SafeWhereFilter(courseId: Option<string>, moduleId: Option<string>) returns (r: Option<map<string, string>>)
    ensures r == WhereFilter(courseId, moduleId)
  {
    var filter: map<string, string> := map[];
    if Truthy(courseId) {
      filter := filter["course_id" := courseId.value];
    }
    if Truthy(moduleId) {
      filter := filter["module_id" := moduleId.value];
    }
    if |filter| == 0 {
      r := None;
    } else {
      r := Some(filter);
    }
  }
}
