/**
  `Calendar.create`: before the component is built, the caller's props are
  rewritten so that the text colour and the background colour live in the
  `style` dict, with the theme's accent colours as defaults.
*/
module CalendarCreate {
  import opened Wrappers

  /**
    A prop value. The framework's own values (vars, strings, numbers) are
    opaque text; `rx.color(scale, shade)` is kept as its two arguments so that
    the defaults can be told apart; a dict holds further values by key.
  */
  datatype Value =
    | Opaque(text: string)
    | Color(scale: string, shade: int)
    | Dict(entries: map<string, Value>)

  /** The defaults: shade 11 of the accent scale for text, shade 1 for the background. */
  const AccentText := Color("accent", 11)
  const AccentBackground := Color("accent", 1)

  /** Assigning a key in a `style` that is not a dict raises a TypeError. */
  datatype CreateError = StyleNotADict

  /** The component as built from its children and its rewritten props. */
  datatype Component = Calendar(children: seq<Value>, props: map<string, Value>)

  /** `dict.pop(key, default)`: the value found (or the default) and the dict without the key. */
  function Pop(m: map<string, Value>, key: string, default: Value): (r: (Value, map<string, Value>))
    ensures r.1 == m - {key}
    ensures key in m ==> r.0 == m[key]
    ensures key !in m ==> r.0 == default
  {
    if key in m then (m[key], m - {key}) else (default, m)
  }

  /** The style entries the caller gave, or none. */
  function GivenStyle(props: map<string, Value>): map<string, Value>
    requires "style" in props ==> props["style"].Dict?
  {
    if "style" in props then props["style"].entries else map[]
  }

  function Given(props: map<string, Value>, key: string, default: Value): Value {
    if key in props then props[key] else default
  }

  /**
    Moves `color` and `background_color` into `style`. Fails only when the
    caller's `style` is not a dict; otherwise the new props keep every other
    prop, drop the two colour keys, and hold a `style` made of the caller's
    style entries with the two colours set (overriding any colours that the
    caller's style already held).
  */
  method Create(children: seq<Value>, props: map<string, Value>) returns (r: Result<Component, CreateError>)
    ensures r.Err? <==> "style" in props && !props["style"].Dict?
    ensures r.Ok? ==> r.value.children == children
    ensures r.Ok? ==>
      var out := r.value.props;
      && "style" in out && out["style"].Dict?
      && "color" !in out && "background_color" !in out
      && (forall k :: k in props && k != "style" && k != "color" && k != "background_color" ==>
            k in out && out[k] == props[k])
      && (forall k :: k in out ==> k == "style" || k in props)
    ensures r.Ok? ==>
      var style := r.value.props["style"].entries;
      && style.Keys == GivenStyle(props).Keys + {"color", "background_color"}
      && style["color"] == Given(props, "color", AccentText)
      && style["background_color"] == Given(props, "background_color", AccentBackground)
      && (forall k :: k in GivenStyle(props) && k != "color" && k != "background_color" ==>
            style[k] == GivenStyle(props)[k])
  {
    var rest := props;
    var popped := Pop(rest, "style", Dict(map[]));
    rest := popped.1;
    if !popped.0.Dict? {
      return Err(StyleNotADict);
    }
    var style := popped.0.entries;
    popped := Pop(rest, "color", AccentText);
    rest := popped.1;
    style := style["color" := popped.0];
    popped := Pop(rest, "background_color", AccentBackground);
    rest := popped.1;
    style := style["background_color" := popped.0];
    rest := rest["style" := Dict(style)];
    return Ok(Calendar(children, rest));
  }
}
