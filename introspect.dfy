/** `modern_python_demo/introspect.py`: closures built at run time. */
module Introspect {

  /** `make_adder(x)`: the closure `add(y) = x + y`. */
  function MakeAdder(x: int): (add: int -> int)
    ensures forall y :: add(y) == x + y
  {
    y => x + y
  }

  /** A function object together with the `__name__` it reports. */
  datatype NamedFunction = NamedFunction(name: string, call: int -> int)

  /** `factory_from_spec(name, multiplier=...)`: `base(a) = a * multiplier`
      renamed to `name`; the multiplier defaults to 1. */
  function FactoryFromSpec(name: string, multiplier: int := 1): (f: NamedFunction)
    ensures f.name == name
    ensures forall a :: f.call(a) == a * multiplier
  {
    NamedFunction(name, a => a * multiplier)
  }

  /** With the default multiplier the produced function is the identity. */
  lemma DefaultFactoryIsIdentity(name: string, a: int)
    ensures FactoryFromSpec(name).call(a) == a
  {
  }

  /** `factory_from_spec("test", multiplier=4)(2) == 8`, under the name "test". */
  lemma FactoryExample()
    ensures FactoryFromSpec("test", 4).call(2) == 8
    ensures FactoryFromSpec("test", 4).name == "test"
  {
  }
}
