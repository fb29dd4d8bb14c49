/**
 * The value type the path matcher hands to its consumers: one variable
 * extracted from a request path while matching it against a template.
 */
module PathMatcher {

  /**
   * `fieldPath` names the request field the variable binds, one component
   * per element (`["a", "b", "c"]` for `a.b.c`); `value` is the text that
   * the matcher captured for it.
   */
  datatype VariableBinding = VariableBinding(fieldPath: seq<string>, value: string)
}
