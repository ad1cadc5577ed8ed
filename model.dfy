/** The event model the reader builds and the repairer updates: competitors, age classes,
    courses and the event. Only the state the core reads or writes is kept. */
module Model {
  import opened Wrappers
  import opened Times

  /** One competitor. The original cumulative times never change once read; the repaired
      ones are written once, by the repairer or by the pass-through. Whether the competitor
      completed the course is decided when the competitor is made. */
  class Competitor {
    const order: nat
    const name: string
    const club: string
    const startTime: Option<int>
    const originalCumTimes: seq<Time>
    const completed: bool
    var isNonCompetitive: bool
    var repairedCumTimes: Option<seq<Time>>

    constructor (order: nat, name: string, club: string, startTime: Option<int>,
                 originalCumTimes: seq<Time>, completed: bool)
      ensures this.order == order && this.name == name && this.club == club
      ensures this.startTime == startTime && this.originalCumTimes == originalCumTimes
      ensures this.completed == completed
      ensures !isNonCompetitive && repairedCumTimes == None
    {
      this.order := order;
      this.name := name;
      this.club := club;
      this.startTime := startTime;
      this.originalCumTimes := originalCumTimes;
      this.completed := completed;
      isNonCompetitive := false;
      repairedCumTimes := None;
    }
  }

  /** One age class: its name, its number of controls (None when it did not parse as a
      number) and its competitors. The course is set once courses are determined. */
  class AgeClass {
    const name: string
    const numControls: Option<int>
    const competitors: seq<Competitor>
    var course: Course?
    var hasDubiousData: bool

    constructor (name: string, numControls: Option<int>, competitors: seq<Competitor>)
      ensures this.name == name && this.numControls == numControls
      ensures this.competitors == competitors
      ensures course == null && !hasDubiousData
    {
      this.name := name;
      this.numControls := numControls;
      this.competitors := competitors;
      course := null;
      hasDubiousData := false;
    }
  }

  /** One course with the classes that run on it, its length (km), climb (m) and control
      codes. */
  class Course {
    const name: string
    const classes: seq<AgeClass>
    const length: Option<real>
    const climb: Option<int>
    const controls: seq<string>

    constructor (name: string, classes: seq<AgeClass>, length: Option<real>, climb: Option<int>,
                 controls: seq<string>)
      ensures this.name == name && this.classes == classes && this.length == length
      ensures this.climb == climb && this.controls == controls
    {
      this.name := name;
      this.classes := classes;
      this.length := length;
      this.climb := climb;
      this.controls := controls;
    }
  }

  datatype Event = Event(classes: seq<AgeClass>, courses: seq<Course>)
}
