/** The three classes of visitors, and records kept once per class. */
module Visitors {

  datatype Class = Reporter | Patient | Salesrep

  datatype PerClass<T> = PerClass(r: T, p: T, s: T)

  function At<T>(d: PerClass<T>, c: Class): T {
    match c
    case Reporter => d.r
    case Patient => d.p
    case Salesrep => d.s
  }

  function With<T>(d: PerClass<T>, c: Class, x: T): (d': PerClass<T>)
    ensures At(d', c) == x && forall b :: b != c ==> At(d', b) == At(d, b)
  {
    match c
    case Reporter => d.(r := x)
    case Patient => d.(p := x)
    case Salesrep => d.(s := x)
  }
}
