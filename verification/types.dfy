/** The records of the workout application (types.ts). Optional TypeScript
    fields become `Option`; numbers that the application treats as whole
    seconds or milliseconds become `int`. */
module Types {

  datatype Option<+T> = None | Some(value: T)

  /** The `displayId` that means "play on this (host) device". */
  const LocalDisplayId: string := "local"

  datatype Display = Display(id: string, name: string, isActive: bool, pairedAt: int)

  datatype Exercise = Exercise(
    id: string,
    name: string,
    category: string,
    duration: int,
    thumbnail: string,
    videoUrl: Option<string>)

  /** One step of a workout; `duration` overrides the exercise's own duration. */
  datatype WorkoutModule = WorkoutModule(
    id: string,
    exerciseId: string,
    displayId: string,
    duration: Option<int>)

  datatype Workout = Workout(
    id: string,
    name: string,
    modules: seq<WorkoutModule>,
    lastModified: int,
    scheduledDays: seq<int>)

  datatype Folder = Folder(id: string, name: string, workoutIds: seq<string>)
}
